/** The receipt as the object the pipeline updates; every method is proved against the functions on `Rcpt`. */
module ReceiptChain {
  import opened Prelude
  import opened Json
  import opened ReceiptDoc
  import opened Receipt

  class UnifiedReceipt {
    const header: Header
    var stages: seq<Stage>
    var decision: Decision
    var effects: Effects
    var sig: string
    var cid: string
    var id: string

    ghost function View(): Rcpt
      reads this
    {
      Rcpt(Doc(header, stages, decision, effects), sig, cid, id)
    }

    constructor (header: Header)
      ensures View() == Rcpt(Doc(header, [], Allow, Object([])), "", "", "")
    {
      this.header := header;
      stages, decision, effects := [], Allow, Object([]);
      sig, cid, id := "", "", "";
    }

    method RecomputeCid(h: Hashes) returns (ok: bool)
      modifies this`sig, this`cid, this`id
      ensures (View(), ok) == Recompute(h, old(View()))
    {
      var savedSig := sig;
      sig, cid, id := "", "", "";
      var newCid := Cid(h, Doc(header, stages, decision, effects));
      if newCid.None? { return false; }
      sig, cid := savedSig, newCid.value;
      id := cid;
      ok := true;
    }

    method VerifyAuthChain(h: Hashes, cur: Key, prev: Option<Key>) returns (ok: Option<bool>)
      ensures ok == Verify(h, View(), cur, prev)
      ensures Lawful(h) ==> (ok == Some(true) <==> Intact(h, View(), cur, prev))
    {
      hide TokenMatches, Intact, Lawful;
      if Lawful(h) { VerifyDecidesIntact(h, View(), cur, prev); }
      var shadow: seq<Stage> := [];
      var shadowCid := "";
      for i := 0 to |stages|
        invariant shadow == stages[..i]
        invariant Verify(h, View(), cur, prev) == Replay(h, View(), i, shadowCid, cur, prev)
      {
        if !TokenMatches(h, stages[i], Label(shadowCid), cur, prev) { return Some(false); }
        shadow := shadow + [stages[i]];
        assert shadow == stages[..i + 1];
        var next := Cid(h, Doc(header, shadow, decision, effects));
        assert Doc(header, shadow, decision, effects) == Prefix(View().doc, i + 1);
        if next.None? { return None; }
        shadowCid := next.value;
      }
      ok := Some(shadowCid == cid);
    }

    method AppendStageWithSecrets(h: Hashes, current: string, previous: Option<string>, stage: Stage)
      returns (outcome: Outcome)
      modifies this
      ensures (View(), outcome) == Append(h, old(View()), current, previous, stage)
    {
      hide Verify, Intact, Lawful;
      var cur := h.key(current);
      if cur.None? { return BadSecret; }
      stages := stages + [Keyed(h, stage, cid, cur.value)];
      var ok := RecomputeCid(h);
      if !ok { return NotCanonical; }
      id := cid;
      if previous.Some? && h.key(previous.value).None? { return BadPrevious; }
      var good := VerifyAuthChain(h, cur.value, if previous.None? then None else h.key(previous.value));
      if good.None? { return ReplayFailed; }
      outcome := if good.value then Done else Mismatch;
    }

    method RebuildAuthChain(h: Hashes, secret: Option<string>)
      modifies this`stages
      ensures View() == old(View()).(doc := Rebuild(h, old(View().doc), secret))
    {
      if secret.None? { return; }
      var key := h.key(secret.value);
      if key.None? || stages == [] { return; }
      ghost var doc := View().doc;
      var rebuilt: seq<Stage> := [];
      var shadowCid := "";
      while |rebuilt| < |stages|
        invariant |rebuilt| <= |stages|
        invariant Rekey(h, doc, key.value, [], "") == Rekey(h, doc, key.value, rebuilt, shadowCid)
      {
        rebuilt := rebuilt + [Keyed(h, stages[|rebuilt|], shadowCid, key.value)];
        var next := Cid(h, Doc(header, rebuilt, decision, effects));
        if next.None? { return; }
        shadowCid := next.value;
      }
      stages := rebuilt;
    }

    method DenyWithSecrets(h: Hashes, reason: string, secret: Option<string>)
      modifies this
      ensures View() == DenyWith(h, old(View()), reason, secret)
    {
      hide Rebuild;
      decision := Decision.Deny;
      if effects.Object? {
        effects := Object(Put(effects.members, DENY_REASON, Str(reason)));
      }
      RebuildAuthChain(h, secret);
      var _ := RecomputeCid(h);
      id := cid;
    }
  }
}
