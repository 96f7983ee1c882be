/** The replay guard: a table of nonces with expiry times, pruned on every call. */
module Nonces {

  datatype Call = Call(nonce: string, now: int, ttl: nat)

  function ExpiresAt(c: Call): int {
    c.now + if c.ttl < 1 then 1 else c.ttl
  }

  function Pruned(seen: map<string, int>, now: int): map<string, int> {
    map n | n in seen && seen[n] > now :: seen[n]
  }

  /** `nonce_mark_if_new`: the table afterwards and whether the nonce was new. */
  function MarkIfNew(seen: map<string, int>, c: Call): (map<string, int>, bool) {
    var live := Pruned(seen, c.now);
    if c.nonce in live then (live, false) else (live[c.nonce := ExpiresAt(c)], true)
  }

  class NonceTable {
    var seen: map<string, int>

    constructor ()
      ensures seen == map[]
    {
      seen := map[];
    }

    method Mark(c: Call) returns (inserted: bool)
      modifies this
      ensures (seen, inserted) == MarkIfNew(old(seen), c)
    {
      seen := Pruned(seen, c.now);
      inserted := c.nonce !in seen;
      if inserted { seen := seen[c.nonce := ExpiresAt(c)]; }
    }
  }

  function After(calls: seq<Call>): map<string, int> {
    if calls == [] then map[] else MarkIfNew(After(calls[..|calls| - 1]), calls[|calls| - 1]).0
  }

  predicate Accepted(calls: seq<Call>, i: nat)
    requires i < |calls|
  {
    MarkIfNew(After(calls[..i]), calls[i]).1
  }

  ghost predicate Clocked(calls: seq<Call>) {
    forall i, j :: 0 <= i <= j < |calls| ==> calls[i].now <= calls[j].now
  }

  /** An accepted call of this nonce whose time, a second at the least, is not over. */
  ghost predicate LiveAt(calls: seq<Call>, i: nat, nonce: string, now: int) {
    && i < |calls| && Accepted(calls, i) && calls[i].nonce == nonce
    && (now < calls[i].now + calls[i].ttl || now < calls[i].now + 1)
  }

  ghost predicate LiveIn(calls: seq<Call>, nonce: string, now: int) {
    exists i :: LiveAt(calls, i, nonce, now)
  }

  lemma AcceptedInPrefix(calls: seq<Call>, n: nat, i: nat)
    requires i < n <= |calls|
    ensures Accepted(calls[..n], i) == Accepted(calls, i)
  {
    assert calls[..n][..i] == calls[..i];
  }

  lemma LiveInPrefix(calls: seq<Call>, i: nat, nonce: string, now: int)
    requires calls != [] && i < |calls| - 1
    ensures LiveAt(calls, i, nonce, now) <==> LiveAt(calls[..|calls| - 1], i, nonce, now)
  {
    AcceptedInPrefix(calls, |calls| - 1, i);
  }

  lemma LiveInStep(calls: seq<Call>, nonce: string, now: int)
    requires calls != []
    ensures LiveIn(calls, nonce, now) <==>
            || LiveIn(calls[..|calls| - 1], nonce, now)
            || LiveAt(calls, |calls| - 1, nonce, now)
  {
    hide Accepted;
    var before := calls[..|calls| - 1];
    if LiveIn(before, nonce, now) {
      var i: nat :| LiveAt(before, i, nonce, now);
      LiveInPrefix(calls, i, nonce, now);
    }
    if LiveIn(calls, nonce, now) {
      var i: nat :| LiveAt(calls, i, nonce, now);
      if i < |calls| - 1 { LiveInPrefix(calls, i, nonce, now); }
    }
  }

  /** From the last call on, the table answers which accepted nonces are still alive. */
  lemma {:induction false} TableHoldsTheLive(calls: seq<Call>, nonce: string, now: int)
    requires Clocked(calls) && forall i :: 0 <= i < |calls| ==> calls[i].now <= now
    ensures nonce in Pruned(After(calls), now) <==> LiveIn(calls, nonce, now)
  {
    hide Accepted, LiveIn;
    if calls == [] {
      assert !LiveIn([], nonce, now) by { NothingLive(nonce, now); }
    } else {
      var before, last := calls[..|calls| - 1], calls[|calls| - 1];
      TableHoldsTheLive(before, nonce, now);
      LiveInStep(calls, nonce, now);
      LastAccepted(calls);
    }
  }

  lemma NothingLive(nonce: string, now: int)
    ensures !LiveIn([], nonce, now)
  {
  }

  lemma LastAccepted(calls: seq<Call>)
    requires calls != []
    ensures Accepted(calls, |calls| - 1) == MarkIfNew(After(calls[..|calls| - 1]), calls[|calls| - 1]).1
  {
  }

  /** On a clock that does not go back, a nonce is accepted exactly when no accepted use of it is still alive. */
  lemma AcceptedExactlyWhenFresh(calls: seq<Call>, i: nat)
    requires Clocked(calls) && i < |calls|
    ensures Accepted(calls, i) <==> !LiveIn(calls[..i], calls[i].nonce, calls[i].now)
  {
    TableHoldsTheLive(calls[..i], calls[i].nonce, calls[i].now);
  }
}
