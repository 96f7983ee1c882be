/**
  The durable store: receipts, idempotency keys and the outbox, changed by transactions that each happen
  as one step. Workers claim, acknowledge and give back outbox rows in any interleaving.
 */
module Durable {
  import opened Prelude
  import opened Json

  datatype NewEvent = NewEvent(kind: string, payload: Json)

  datatype CommitInput = CommitInput(
    cid: string,
    receipt: Json,
    did: string,
    kid: string,
    rtHash: string,
    decision: string,
    key: Option<string>,
    chain: seq<string>,
    events: seq<NewEvent>,
    createdAt: int,
    failAfterReceipt: bool)

  datatype ReceiptRow = ReceiptRow(body: Json, createdAt: int, did: string, kid: string, rtHash: string, decision: string)
  datatype IdemRow = IdemRow(cid: string, response: Json, chain: seq<string>, createdAt: int)
  datatype Status = Pending | Inflight | Delivered | Dead
  datatype Row = Row(event: NewEvent, status: Status, attempts: nat, nextAt: int, createdAt: int)

  /** The tables; `nextId` is the outbox's AUTOINCREMENT sequence. */
  datatype Tables = Tables(
    receipts: map<string, ReceiptRow>,
    idem: map<string, IdemRow>,
    outbox: map<nat, Row>,
    nextId: nat)

  const EMPTY: Tables := Tables(map[], map[], map[], 1)

  datatype CommitOutcome = Committed | Conflict | InjectedFailure

  // ---------------------------------------------------------------- commit

  /** The CHECK constraint on the receipts table. */
  predicate DecisionAllowed(d: string) {
    d == "allow" || d == "deny"
  }

  /** INSERT OR IGNORE: skips a receipt that is there already, and one the CHECK refuses. */
  function InsertReceipt(receipts: map<string, ReceiptRow>, c: CommitInput): map<string, ReceiptRow> {
    if c.cid in receipts || !DecisionAllowed(c.decision) then receipts
    else receipts[c.cid := ReceiptRow(c.receipt, c.createdAt, c.did, c.kid, c.rtHash, c.decision)]
  }

  function NewRow(event: NewEvent, at: int): Row {
    Row(event, Pending, 0, at, at)
  }

  function Enqueue(outbox: map<nat, Row>, nextId: nat, events: seq<NewEvent>, at: int): map<nat, Row>
    decreases |events|
  {
    if events == [] then outbox
    else Enqueue(outbox[nextId := NewRow(events[0], at)], nextId + 1, events[1..], at)
  }

  function IdemOf(c: CommitInput): IdemRow {
    IdemRow(c.cid, c.receipt, c.chain, c.createdAt)
  }

  /** `commit_wf_atomically`: a transaction that ends early is rolled back. */
  function Commit(t: Tables, c: CommitInput): (Tables, CommitOutcome) {
    if c.failAfterReceipt then (t, InjectedFailure)
    else if c.key.Some? && c.key.value in t.idem then (t, Conflict)
    else
      (Tables(InsertReceipt(t.receipts, c),
              if c.key.Some? then t.idem[c.key.value := IdemOf(c)] else t.idem,
              Enqueue(t.outbox, t.nextId, c.events, c.createdAt),
              t.nextId + |c.events|),
       Committed)
  }

  /** `get_idempotent`, without its rendering of the time. */
  function Lookup(t: Tables, key: string): Option<IdemRow> {
    if key in t.idem then Some(t.idem[key]) else None
  }

  // ---------------------------------------------------------------- outbox

  predicate Due(outbox: map<nat, Row>, id: nat, now: int) {
    id in outbox && outbox[id].status.Pending? && outbox[id].nextAt <= now
  }

  /** The SELECT of `claim_outbox`: due rows by ascending id, at most `limit` of them. */
  function DueFrom(outbox: map<nat, Row>, now: int, id: nat, nextId: nat, limit: nat): seq<nat>
    decreases nextId - id
  {
    if id >= nextId || limit == 0 then []
    else if Due(outbox, id, now) then [id] + DueFrom(outbox, now, id + 1, nextId, limit - 1)
    else DueFrom(outbox, now, id + 1, nextId, limit)
  }

  function ClaimIds(t: Tables, now: int, limit: nat): seq<nat> {
    DueFrom(t.outbox, now, 0, t.nextId, limit)
  }

  function ClaimRow(r: Row): Row {
    r.(status := Inflight, attempts := r.attempts + 1)
  }

  function MarkClaimed(outbox: map<nat, Row>, ids: seq<nat>): map<nat, Row> {
    map id | id in outbox :: if id in ids then ClaimRow(outbox[id]) else outbox[id]
  }

  function Claim(t: Tables, now: int, limit: nat): Tables {
    t.(outbox := MarkClaimed(t.outbox, ClaimIds(t, now, limit)))
  }

  /** UPDATE ... WHERE id: nothing happens to a row that is not there. */
  function Ack(t: Tables, id: nat): Tables {
    if id in t.outbox then t.(outbox := t.outbox[id := t.outbox[id].(status := Delivered)]) else t
  }

  function Nack(t: Tables, id: nat, at: int): Tables {
    if id in t.outbox then t.(outbox := t.outbox[id := t.outbox[id].(status := Pending, nextAt := at)]) else t
  }

  /** A claim takes the due rows with the smallest ids: ascending, no more than asked, none passed over. */
  lemma {:induction false} DueProperties(outbox: map<nat, Row>, now: int, id: nat, nextId: nat, limit: nat)
    ensures var ids := DueFrom(outbox, now, id, nextId, limit);
            && |ids| <= limit
            && (forall i :: 0 <= i < |ids| ==> id <= ids[i] < nextId && Due(outbox, ids[i], now))
            && (forall i, j :: 0 <= i < j < |ids| ==> ids[i] < ids[j])
            && (forall x :: id <= x < nextId && Due(outbox, x, now) && x !in ids ==>
                  |ids| == limit && forall i :: 0 <= i < |ids| ==> ids[i] < x)
    decreases nextId - id
  {
    hide Due;
    if id < nextId && limit > 0 {
      var ids := DueFrom(outbox, now, id, nextId, limit);
      if Due(outbox, id, now) {
        DueProperties(outbox, now, id + 1, nextId, limit - 1);
        var tail := DueFrom(outbox, now, id + 1, nextId, limit - 1);
        assert forall i :: 0 < i < |ids| ==> ids[i] == tail[i - 1];
        assert forall x :: x in ids <==> x == id || x in tail;
      } else {
        DueProperties(outbox, now, id + 1, nextId, limit);
      }
    }
  }

  /** A row given back is due again from the time named, one acknowledged is never due, and no other row changes. */
  lemma ReleasedRows(t: Tables, id: nat, at: int, now: int)
    requires id in t.outbox
    ensures Due(Nack(t, id, at).outbox, id, now) <==> at <= now
    ensures !Due(Ack(t, id).outbox, id, now) && Ack(t, id).outbox[id].status == Delivered
    ensures forall x :: x in t.outbox ==>
              x in Nack(t, id, at).outbox && x in Ack(t, id).outbox
              && Nack(t, id, at).outbox[x].attempts == Ack(t, id).outbox[x].attempts == t.outbox[x].attempts
              && (x != id ==> Nack(t, id, at).outbox[x] == Ack(t, id).outbox[x] == t.outbox[x])
    ensures Nack(t, id, at).outbox.Keys == Ack(t, id).outbox.Keys == t.outbox.Keys
  {
  }

  /** A claimed row is in flight with one attempt more and keeps all else; every other row stays as it was. */
  lemma ClaimedRows(t: Tables, now: int, limit: nat, id: nat)
    requires id in t.outbox
    ensures id in Claim(t, now, limit).outbox
    ensures var row, row' := t.outbox[id], Claim(t, now, limit).outbox[id];
            if id in ClaimIds(t, now, limit) then
              && row'.status == Inflight && row'.attempts == row.attempts + 1
              && row'.event == row.event && row'.nextAt == row.nextAt && row'.createdAt == row.createdAt
            else row' == row
  {
    hide ClaimIds;
  }

  // ---------------------------------------------------------------- runs

  type Worker = nat

  datatype Step =
    | DoCommit(c: CommitInput)
    | DoClaim(w: Worker, now: int, limit: nat)
    | DoAck(w: Worker, id: nat)
    | DoNack(w: Worker, id: nat, at: int)

  /** The tables, who holds which row, and one entry per claim that was ever made. */
  datatype System = System(t: Tables, held: set<(Worker, nat)>, claims: multiset<nat>)

  function Next(s: System, step: Step): System {
    match step
    case DoCommit(c) => s.(t := Commit(s.t, c).0)
    case DoClaim(w, now, limit) =>
      var ids := ClaimIds(s.t, now, limit);
      System(Claim(s.t, now, limit), s.held + (set id | id in ids :: (w, id)), s.claims + multiset(ids))
    case DoAck(w, id) => System(Ack(s.t, id), s.held - {(w, id)}, s.claims)
    case DoNack(w, id, at) => System(Nack(s.t, id, at), s.held - {(w, id)}, s.claims)
  }

  function Run(steps: seq<Step>): System {
    if steps == [] then System(EMPTY, {}, multiset{})
    else Next(Run(steps[..|steps| - 1]), steps[|steps| - 1])
  }

  // ---------------------------------------------------------------- the tables are what was committed

  /** The inputs of the commits that succeeded, in order. */
  function CommittedInputs(steps: seq<Step>): seq<CommitInput> {
    if steps == [] then []
    else
      var before, last := steps[..|steps| - 1], steps[|steps| - 1];
      if last.DoCommit? && Commit(Run(before).t, last.c).1 == Committed then CommittedInputs(before) + [last.c]
      else CommittedInputs(before)
  }

  /** All events of a list of commits, in order. */
  function EventsOf(cs: seq<CommitInput>): seq<NewEvent> {
    if cs == [] then [] else EventsOf(cs[..|cs| - 1]) + cs[|cs| - 1].events
  }

  ghost predicate DistinctKeys(cs: seq<CommitInput>) {
    forall i, j :: 0 <= i < j < |cs| && cs[i].key.Some? ==> cs[i].key != cs[j].key
  }

  /** The row answers with the commit's own receipt id, receipt and chain, as of the commit's own time. */
  ghost predicate AnswersWith(row: IdemRow, c: CommitInput) {
    row.cid == c.cid && row.response == c.receipt && row.chain == c.chain && row.createdAt == c.createdAt
  }

  ghost predicate IdemReflects(t: Tables, cs: seq<CommitInput>) {
    && (forall i :: 0 <= i < |cs| && cs[i].key.Some? ==> cs[i].key.value in t.idem && AnswersWith(t.idem[cs[i].key.value], cs[i]))
    && (forall k :: k in t.idem ==> exists i :: 0 <= i < |cs| && cs[i].key == Some(k))
  }

  /** Row `n + 1` of the outbox carries event `n`. */
  ghost predicate OutboxReflects(t: Tables, events: seq<NewEvent>) {
    && t.nextId == |events| + 1
    && (forall id :: id in t.outbox <==> 1 <= id < t.nextId)
    && (forall id :: id in t.outbox ==> t.outbox[id].event == events[id - 1])
  }

  /** The first of the commits with this id and an allowed decision. */
  function FirstReceipt(cs: seq<CommitInput>, cid: string): Option<CommitInput> {
    if cs == [] then None
    else
      var earlier, c := FirstReceipt(cs[..|cs| - 1], cid), cs[|cs| - 1];
      if earlier.Some? then earlier else if c.cid == cid && DecisionAllowed(c.decision) then Some(c) else None
  }

  ghost predicate ReceiptsReflect(t: Tables, cs: seq<CommitInput>) {
    forall cid ::
      match FirstReceipt(cs, cid)
      case None => cid !in t.receipts
      case Some(c) => cid in t.receipts && t.receipts[cid] == ReceiptRow(c.receipt, c.createdAt, c.did, c.kid, c.rtHash, c.decision)
  }

  lemma {:induction false} EnqueueReflects(t: Tables, events: seq<NewEvent>, more: seq<NewEvent>, at: int)
    requires OutboxReflects(t, events)
    ensures OutboxReflects(t.(outbox := Enqueue(t.outbox, t.nextId, more, at), nextId := t.nextId + |more|), events + more)
    decreases |more|
  {
    if more == [] {
      assert events + more == events;
    } else {
      var t' := t.(outbox := t.outbox[t.nextId := NewRow(more[0], at)], nextId := t.nextId + 1);
      assert OutboxReflects(t', events + [more[0]]);
      EnqueueReflects(t', events + [more[0]], more[1..], at);
      assert events + [more[0]] + more[1..] == events + more;
    }
  }

  ghost predicate Reflects(t: Tables, cs: seq<CommitInput>) {
    DistinctKeys(cs) && IdemReflects(t, cs) && OutboxReflects(t, EventsOf(cs)) && ReceiptsReflect(t, cs)
  }

  lemma CommitReflects(t: Tables, cs: seq<CommitInput>, c: CommitInput)
    requires Reflects(t, cs) && Commit(t, c).1 == Committed
    ensures Reflects(Commit(t, c).0, cs + [c])
  {
    hide OutboxReflects;
    var cs', t' := cs + [c], Commit(t, c).0;
    assert cs'[..|cs|] == cs && cs'[|cs|] == c;
    assert OutboxReflects(t', EventsOf(cs')) by { EnqueueReflects(t, EventsOf(cs), c.events, c.createdAt); OutboxOnly(t, t', EventsOf(cs')); }
    IdemStep(t, cs, c);
    ReceiptsStep(t, cs, c);
  }

  lemma OutboxOnly(t: Tables, t': Tables, events: seq<NewEvent>)
    ensures OutboxReflects(t.(outbox := t'.outbox, nextId := t'.nextId), events) ==> OutboxReflects(t', events)
  {
  }

  lemma IdemStep(t: Tables, cs: seq<CommitInput>, c: CommitInput)
    requires DistinctKeys(cs) && IdemReflects(t, cs) && Commit(t, c).1 == Committed
    ensures DistinctKeys(cs + [c]) && IdemReflects(Commit(t, c).0, cs + [c])
  {
    hide Enqueue, InsertReceipt;
    var cs' := cs + [c];
    forall k | k in t.idem ensures exists i :: 0 <= i < |cs'| && cs'[i].key == Some(k) {
      var i :| 0 <= i < |cs| && cs[i].key == Some(k);
      assert cs'[i].key == Some(k);
    }
    assert cs'[|cs|] == c;
  }

  lemma ReceiptsStep(t: Tables, cs: seq<CommitInput>, c: CommitInput)
    requires ReceiptsReflect(t, cs) && Commit(t, c).1 == Committed
    ensures ReceiptsReflect(Commit(t, c).0, cs + [c])
  {
    hide Enqueue, IdemOf;
    var cs' := cs + [c];
    assert cs'[..|cs|] == cs && cs'[|cs|] == c;
  }

  lemma OutboxStepReflects(s: System, step: Step, cs: seq<CommitInput>)
    requires Reflects(s.t, cs) && !step.DoCommit?
    ensures Reflects(Next(s, step).t, cs)
  {
    hide ClaimIds, EventsOf, FirstReceipt, ReceiptsReflect;
    assert ReceiptsReflect(Next(s, step).t, cs) by { SameReceipts(s.t, Next(s, step).t, cs); }
  }

  lemma SameReceipts(t: Tables, t': Tables, cs: seq<CommitInput>)
    requires t.receipts == t'.receipts && ReceiptsReflect(t, cs)
    ensures ReceiptsReflect(t', cs)
  {
  }

  /**
    After any steps whatever, the tables are what the successful commits say: no two of them share a key,
    each key answers with its own commit, the outbox holds their events once each and in order, and a
    receipt is the first one committed under its id with an allowed decision.
   */
  lemma {:induction false} RunReflectsCommits(steps: seq<Step>)
    ensures Reflects(Run(steps).t, CommittedInputs(steps))
  {
    hide Commit, Reflects, Next;
    if steps == [] {
      EmptyReflects();
    } else {
      var before, last := steps[..|steps| - 1], steps[|steps| - 1];
      RunReflectsCommits(before);
      if last.DoCommit? {
        NextCommits(Run(before), last.c);
        if Commit(Run(before).t, last.c).1 == Committed {
          CommitReflects(Run(before).t, CommittedInputs(before), last.c);
        }
      } else {
        OutboxStepReflects(Run(before), last, CommittedInputs(before));
      }
    }
  }

  lemma EmptyReflects()
    ensures Reflects(EMPTY, [])
  {
  }

  lemma NextCommits(s: System, c: CommitInput)
    ensures Next(s, DoCommit(c)).t == Commit(s.t, c).0
    ensures Commit(s.t, c).1 != Committed ==> Next(s, DoCommit(c)) == s
  {
    hide Enqueue, InsertReceipt;
  }

  /** Once a key is committed, the first commit's receipt is the answer and no later commit of the key changes anything. */
  lemma {:induction false} FirstCommitWins(steps: seq<Step>, more: seq<Step>, c: CommitInput)
    requires c.key.Some? && c in CommittedInputs(steps)
    ensures var row := Lookup(Run(steps + more).t, c.key.value); row.Some? && AnswersWith(row.value, c)
    ensures forall d: CommitInput :: d.key == c.key ==> Next(Run(steps + more), DoCommit(d)) == Run(steps + more)
  {
    hide IdemOf, Commit, Next, OutboxReflects, ReceiptsReflect, Run;
    CommittedStays(steps, more, c);
    RunReflectsCommits(steps + more);
    var cs := CommittedInputs(steps + more);
    var i :| 0 <= i < |cs| && cs[i] == c;
    forall d: CommitInput | d.key == c.key ensures Next(Run(steps + more), DoCommit(d)) == Run(steps + more) {
      NextCommits(Run(steps + more), d);
      TakenKeyFails(Run(steps + more).t, d);
    }
  }

  lemma TakenKeyFails(t: Tables, d: CommitInput)
    requires d.key.Some? && d.key.value in t.idem
    ensures Commit(t, d).1 != Committed
  {
    hide Enqueue, InsertReceipt;
  }

  lemma {:induction false} CommittedStays(steps: seq<Step>, more: seq<Step>, c: CommitInput)
    requires c in CommittedInputs(steps)
    ensures c in CommittedInputs(steps + more)
    decreases |more|
  {
    hide Commit, Run;
    if more == [] {
      assert steps + more == steps;
    } else {
      CommittedStays(steps, more[..|more| - 1], c);
      assert (steps + more)[..|steps + more| - 1] == steps + more[..|more| - 1];
    }
  }

  /** A key is unknown exactly as long as no commit of it succeeded. */
  lemma UnknownExactlyBeforeCommit(steps: seq<Step>, key: string)
    ensures Lookup(Run(steps).t, key) == None <==> forall c :: c in CommittedInputs(steps) ==> c.key != Some(key)
  {
    hide Commit, OutboxReflects, ReceiptsReflect, Run, CommittedInputs;
    RunReflectsCommits(steps);
    var cs := CommittedInputs(steps);
    if c :| c in cs && c.key == Some(key) {
      var i :| 0 <= i < |cs| && cs[i] == c;
    }
  }

  /** Every answer by key is that of a commit that went through under the key. */
  lemma AnswersComeFromCommits(steps: seq<Step>, key: string)
    ensures var row := Lookup(Run(steps).t, key);
            row.Some? ==> exists c :: c in CommittedInputs(steps) && c.key == Some(key) && AnswersWith(row.value, c)
  {
    hide Commit, OutboxReflects, ReceiptsReflect, Run, CommittedInputs;
    RunReflectsCommits(steps);
    var cs := CommittedInputs(steps);
    if key in Run(steps).t.idem {
      var i :| 0 <= i < |cs| && cs[i].key == Some(key);
      assert cs[i] in cs;
    }
  }

  /** In every run the receipt id that a committed key answers with is in the receipts table when the decision was allow or deny. */
  lemma AnswerHasReceipt(steps: seq<Step>, c: CommitInput)
    requires c in CommittedInputs(steps) && c.key.Some? && (c.decision == "allow" || c.decision == "deny")
    ensures var row := Lookup(Run(steps).t, c.key.value);
            row.Some? && row.value.cid == c.cid && row.value.cid in Run(steps).t.receipts
  {
    hide Commit, OutboxReflects, Run, CommittedInputs;
    RunReflectsCommits(steps);
    var cs := CommittedInputs(steps);
    var i :| 0 <= i < |cs| && cs[i] == c;
    FirstReceiptExists(cs, i);
    FirstReceiptIsOne(cs, c.cid);
  }

  lemma {:induction false} FirstReceiptExists(cs: seq<CommitInput>, i: nat)
    requires i < |cs| && DecisionAllowed(cs[i].decision)
    ensures FirstReceipt(cs, cs[i].cid).Some?
  {
    if i < |cs| - 1 { FirstReceiptExists(cs[..|cs| - 1], i); }
  }

  /** The first receipt of an id is the receipt of a commit of that id, and no commit before it could have stored one. */
  lemma {:induction false} FirstReceiptIsOne(cs: seq<CommitInput>, cid: string)
    ensures var r := FirstReceipt(cs, cid);
            if r.Some? then
              exists i :: 0 <= i < |cs| && cs[i] == r.value && StoresReceipt(cs[i], cid) && forall j :: 0 <= j < i ==> !StoresReceipt(cs[j], cid)
            else forall j :: 0 <= j < |cs| ==> !StoresReceipt(cs[j], cid)
  {
    if cs != [] {
      var n := |cs| - 1;
      FirstReceiptIsOne(cs[..n], cid);
      if FirstReceipt(cs[..n], cid).Some? {
        var i :| 0 <= i < n && cs[..n][i] == FirstReceipt(cs[..n], cid).value && StoresReceipt(cs[..n][i], cid)
                 && forall j :: 0 <= j < i ==> !StoresReceipt(cs[..n][j], cid);
        assert forall j :: 0 <= j < i ==> cs[j] == cs[..n][j];
        assert cs[i] == cs[..n][i];
      } else {
        assert forall j :: 0 <= j < n ==> cs[j] == cs[..n][j];
      }
    }
  }

  /** A commit under this id whose decision passes the CHECK. */
  ghost predicate StoresReceipt(c: CommitInput, cid: string) {
    c.cid == cid && (c.decision == "allow" || c.decision == "deny")
  }

  /** A commit that goes through leaves a receipt behind exactly when one was there or the decision is allow or deny. */
  lemma ReceiptStoredExactly(t: Tables, c: CommitInput)
    requires Commit(t, c).1 == Committed
    ensures c.cid in Commit(t, c).0.receipts <==> c.cid in t.receipts || DecisionAllowed(c.decision)
  {
  }

  /** Any other decision commits, answers by key and enqueues its events, but its receipt is lost. */
  lemma UnknownDecisionLosesReceipt(c: CommitInput)
    requires c.decision == "Allow" && c.key == Some("k") && !c.failAfterReceipt
    ensures var (t, outcome) := Commit(EMPTY, c);
            outcome == Committed && Lookup(t, "k").Some? && AnswersWith(Lookup(t, "k").value, c) && t.receipts == map[]
  {
    assert c.decision[0] == 'A';
    assert !DecisionAllowed(c.decision);
  }

  // ---------------------------------------------------------------- workers

  /** Workers acknowledge and give back only rows they hold. */
  predicate Allowed(s: System, step: Step) {
    match step
    case DoCommit(_) => true
    case DoClaim(_, _, _) => true
    case DoAck(w, id) => (w, id) in s.held
    case DoNack(w, id, _) => (w, id) in s.held
  }

  predicate Legal(steps: seq<Step>) {
    steps == [] || (Legal(steps[..|steps| - 1]) && Allowed(Run(steps[..|steps| - 1]), steps[|steps| - 1]))
  }

  ghost predicate HeldBySome(s: System, id: nat) {
    exists w :: (w, id) in s.held
  }

  /** One holder per row, rows in flight are the ones held, and attempts counts the claims. */
  ghost predicate Orderly(s: System) {
    && s.t.nextId >= 1 && (forall id :: id in s.t.outbox <==> 1 <= id < s.t.nextId)
    && (forall v, w, id :: (v, id) in s.held && (w, id) in s.held ==> v == w)
    && (forall id :: HeldBySome(s, id) <==> id in s.t.outbox && s.t.outbox[id].status.Inflight?)
    && (forall id :: id in s.t.outbox ==> s.t.outbox[id].attempts == s.claims[id])
    && (forall id :: id !in s.t.outbox ==> s.claims[id] == 0)
  }

  lemma {:induction false} EnqueueRows(outbox: map<nat, Row>, nextId: nat, events: seq<NewEvent>, at: int)
    ensures var r := Enqueue(outbox, nextId, events, at);
            && (forall id: nat :: id in r <==> id in outbox || nextId <= id < nextId + |events|)
            && (forall id :: id in outbox && id < nextId ==> r[id] == outbox[id])
            && (forall id: nat :: nextId <= id < nextId + |events| ==> r[id] == NewRow(events[id - nextId], at))
    decreases |events|
  {
    hide NewRow;
    if events != [] {
      var outbox' := outbox[nextId := NewRow(events[0], at)];
      EnqueueRows(outbox', nextId + 1, events[1..], at);
      var r := Enqueue(outbox', nextId + 1, events[1..], at);
      assert Enqueue(outbox, nextId, events, at) == r;
      assert nextId in r && r[nextId] == outbox'[nextId];
      assert forall id: nat :: id in outbox' <==> id in outbox || id == nextId;
      forall id: nat | nextId <= id < nextId + |events| ensures id in r && r[id] == NewRow(events[id - nextId], at) {
        if id > nextId { assert events[1..][id - (nextId + 1)] == events[id - nextId]; }
      }
    }
  }

  lemma CommitIsOrderly(s: System, c: CommitInput)
    requires Orderly(s)
    ensures Orderly(Next(s, DoCommit(c)))
  {
    hide Enqueue, InsertReceipt;
    var s' := Next(s, DoCommit(c));
    if Commit(s.t, c).1 != Committed {
      assert s' == s;
    } else {
      EnqueueRows(s.t.outbox, s.t.nextId, c.events, c.createdAt);
      forall id | id in s'.t.outbox && id !in s.t.outbox
        ensures s'.t.outbox[id].status.Pending? && s'.t.outbox[id].attempts == 0
      {
        assert s'.t.outbox[id] == NewRow(c.events[id - s.t.nextId], c.createdAt);
      }
      forall id: nat ensures HeldBySome(s', id) <==> HeldBySome(s, id) {
        assert s'.held == s.held;
      }
    }
  }

  /** What a commit enqueues is due from the commit's own time on, and not before. */
  lemma CommittedEventsAreDue(s: System, c: CommitInput, id: nat, now: int)
    requires Orderly(s) && Commit(s.t, c).1 == Committed && s.t.nextId <= id < s.t.nextId + |c.events|
    ensures Due(Commit(s.t, c).0.outbox, id, now) <==> now >= c.createdAt
    ensures id in Commit(s.t, c).0.outbox && Commit(s.t, c).0.outbox[id].event == c.events[id - s.t.nextId]
    ensures Commit(s.t, c).0.outbox[id].attempts == 0 && Commit(s.t, c).0.outbox[id].createdAt == c.createdAt
  {
    hide Enqueue, InsertReceipt, Orderly;
    EnqueueRows(s.t.outbox, s.t.nextId, c.events, c.createdAt);
  }

  lemma {:induction false} AscendingCount(ids: seq<nat>, x: nat)
    requires forall i, j :: 0 <= i < j < |ids| ==> ids[i] < ids[j]
    ensures multiset(ids)[x] == if x in ids then 1 else 0
  {
    if ids != [] {
      AscendingCount(ids[1..], x);
      assert ids == [ids[0]] + ids[1..];
      assert ids[0] !in ids[1..];
    }
  }

  lemma ClaimedAreDue(t: Tables, now: int, limit: nat)
    ensures forall id :: id in ClaimIds(t, now, limit) ==> Due(t.outbox, id, now)
    ensures forall id :: multiset(ClaimIds(t, now, limit))[id] == if id in ClaimIds(t, now, limit) then 1 else 0
  {
    hide Due;
    var ids := ClaimIds(t, now, limit);
    DueProperties(t.outbox, now, 0, t.nextId, limit);
    forall id ensures multiset(ids)[id] == if id in ids then 1 else 0 { AscendingCount(ids, id); }
  }

  lemma ClaimIsOrderly(s: System, w: Worker, now: int, limit: nat)
    requires Orderly(s)
    ensures Orderly(Next(s, DoClaim(w, now, limit)))
  {
    hide ClaimIds;
    var ids := ClaimIds(s.t, now, limit);
    var s' := Next(s, DoClaim(w, now, limit));
    ClaimedAreDue(s.t, now, limit);
    forall id | id in ids ensures !HeldBySome(s, id) {}
    forall id: nat ensures HeldBySome(s', id) <==> HeldBySome(s, id) || id in ids {
      if HeldBySome(s, id) {
        var v :| (v, id) in s.held;
        assert (v, id) in s'.held;
      }
      if id in ids { assert (w, id) in s'.held; }
    }
    forall v, u, id | (v, id) in s'.held && (u, id) in s'.held ensures v == u {
      if id in ids { assert !HeldBySome(s, id); }
    }
  }

  lemma ReleaseIsOrderly(s: System, step: Step)
    requires Orderly(s) && Allowed(s, step) && (step.DoAck? || step.DoNack?)
    ensures Orderly(Next(s, step))
  {
    var s' := Next(s, step);
    assert HeldBySome(s, step.id) by { assert (step.w, step.id) in s.held; }
    forall id: nat ensures HeldBySome(s', id) <==> HeldBySome(s, id) && id != step.id {
      if v :| (v, id) in s.held && id != step.id { assert (v, id) in s'.held; }
      if v :| (v, id) in s'.held { assert (v, id) in s.held; }
    }
  }

  /** In every legal interleaving no row has two holders, held means in flight, and attempts counts claims. */
  lemma {:induction false} LegalRunsAreOrderly(steps: seq<Step>)
    requires Legal(steps)
    ensures Orderly(Run(steps))
  {
    hide Orderly, Next;
    if steps == [] {
      EmptyIsOrderly();
    } else {
      var before, last := steps[..|steps| - 1], steps[|steps| - 1];
      LegalRunsAreOrderly(before);
      match last
      case DoCommit(c) => CommitIsOrderly(Run(before), c);
      case DoClaim(w, now, limit) => ClaimIsOrderly(Run(before), w, now, limit);
      case DoAck(_, _) => ReleaseIsOrderly(Run(before), last);
      case DoNack(_, _, _) => ReleaseIsOrderly(Run(before), last);
    }
  }

  lemma EmptyIsOrderly()
    ensures Orderly(System(EMPTY, {}, multiset{}))
  {
  }

  /** What is kept from one state to the next: rows stay, with their event, and delivered rows are left alone. */
  ghost predicate Keeps(s: System, s': System) {
    forall id :: id in s.t.outbox ==>
      && id in s'.t.outbox && s'.t.outbox[id].event == s.t.outbox[id].event
      && (s.t.outbox[id].status.Delivered? ==> s'.t.outbox[id] == s.t.outbox[id] && s'.claims[id] == s.claims[id])
  }

  lemma StepKeeps(s: System, step: Step)
    requires Orderly(s) && Allowed(s, step)
    ensures Keeps(s, Next(s, step))
  {
    hide Next, Keeps;
    KeptExactly(s, step);
    if step.DoNack? { assert HeldBySome(s, step.id); }
  }

  /** No row vanishes, and a delivered row is never claimed or changed again, however the run goes on. */
  lemma {:induction false} DeliveredIsFinal(steps: seq<Step>, more: seq<Step>)
    requires Legal(steps + more)
    ensures Legal(steps) && Keeps(Run(steps), Run(steps + more))
    decreases |more|
  {
    hide Orderly, Next, Allowed, Keeps;
    if more == [] {
      assert steps + more == steps;
      KeepsItself(Run(steps));
    } else {
      var shorter := steps + more[..|more| - 1];
      assert (steps + more)[..|steps + more| - 1] == shorter && (steps + more)[|steps + more| - 1] == more[|more| - 1];
      DeliveredIsFinal(steps, more[..|more| - 1]);
      LegalRunsAreOrderly(shorter);
      StepKeeps(Run(shorter), more[|more| - 1]);
      KeepsTransitive(Run(steps), Run(shorter), Run(steps + more));
    }
  }

  lemma KeepsItself(s: System)
    ensures Keeps(s, s)
  {
  }

  lemma KeepsTransitive(a: System, b: System, c: System)
    requires Keeps(a, b) && Keeps(b, c)
    ensures Keeps(a, c)
  {
  }

  /** The rule is needed: giving back a row that one does not hold makes a delivered row due again. */
  lemma StrayNackRevives(s: System, w: Worker, id: nat, at: int, now: int)
    requires Orderly(s) && id in s.t.outbox && s.t.outbox[id].status.Delivered? && at <= now
    ensures !Allowed(s, DoNack(w, id, at))
    ensures id in ClaimIds(Next(s, DoNack(w, id, at)).t, now, s.t.nextId)
  {
    hide ClaimIds;
    assert !HeldBySome(s, id);
    var t := Next(s, DoNack(w, id, at)).t;
    assert Due(t.outbox, id, now);
    AllDueFit(t, now);
  }

  /** A nack of a row that is delivered. */
  predicate NacksDelivered(s: System, step: Step) {
    step.DoNack? && step.id in s.t.outbox && s.t.outbox[step.id].status.Delivered?
  }

  /** Of all steps, by whomever, exactly the nack of a delivered row fails to leave delivered rows alone. */
  lemma KeptExactly(s: System, step: Step)
    requires Orderly(s)
    ensures Keeps(s, Next(s, step)) <==> !NacksDelivered(s, step)
  {
    hide Enqueue, InsertReceipt, ClaimIds, Orderly;
    match step
    case DoCommit(c) =>
      assert forall id :: id in s.t.outbox ==> id < s.t.nextId by { IdsBelowNext(s); }
      EnqueueRows(s.t.outbox, s.t.nextId, c.events, c.createdAt);
    case DoClaim(w, now, limit) =>
      ClaimedAreDue(s.t, now, limit);
    case DoAck(w, id) =>
    case DoNack(w, id, at) =>
      if NacksDelivered(s, step) {
        assert Next(s, step).t.outbox[id].status.Pending?;
      }
  }

  lemma IdsBelowNext(s: System)
    requires Orderly(s)
    ensures forall id :: id in s.t.outbox ==> id < s.t.nextId
  {
  }

  /** A row in flight is released by someone who does not hold it. */
  predicate ReleasesAnothers(s: System, step: Step) {
    && (step.DoAck? || step.DoNack?) && !Allowed(s, step)
    && step.id in s.t.outbox && s.t.outbox[step.id].status.Inflight?
  }

  /** Exactly that breaks the bookkeeping of holders, status and attempts. */
  lemma OrderlyKeptExactly(s: System, step: Step)
    requires Orderly(s)
    ensures Orderly(Next(s, step)) <==> !ReleasesAnothers(s, step)
  {
    hide Orderly, Next;
    match step
    case DoCommit(c) => CommitIsOrderly(s, c);
    case DoClaim(w, now, limit) => ClaimIsOrderly(s, w, now, limit);
    case DoAck(_, _) => ReleaseExactly(s, step);
    case DoNack(_, _, _) => ReleaseExactly(s, step);
  }

  lemma ReleaseExactly(s: System, step: Step)
    requires Orderly(s) && (step.DoAck? || step.DoNack?)
    ensures Orderly(Next(s, step)) <==> !ReleasesAnothers(s, step)
  {
    if Allowed(s, step) {
      ReleaseIsOrderly(s, step);
    } else if ReleasesAnothers(s, step) {
      StillHeld(s, step);
    } else {
      UnheldReleaseIsOrderly(s, step);
    }
  }

  lemma StillHeld(s: System, step: Step)
    requires Orderly(s) && ReleasesAnothers(s, step)
    ensures !Orderly(Next(s, step))
  {
    var s' := Next(s, step);
    assert HeldBySome(s, step.id);
    var v :| (v, step.id) in s.held;
    assert (v, step.id) in s'.held;
    assert HeldBySome(s', step.id) && !s'.t.outbox[step.id].status.Inflight?;
  }

  lemma UnheldReleaseIsOrderly(s: System, step: Step)
    requires Orderly(s) && (step.DoAck? || step.DoNack?) && !Allowed(s, step) && !ReleasesAnothers(s, step)
    ensures Orderly(Next(s, step))
  {
    var s' := Next(s, step);
    assert s'.held == s.held;
    forall id: nat ensures HeldBySome(s', id) <==> HeldBySome(s, id) {}
  }

  lemma AllDueFit(t: Tables, now: int)
    ensures forall id: nat :: id < t.nextId && Due(t.outbox, id, now) ==> id in ClaimIds(t, now, t.nextId)
  {
    hide Due;
    DueProperties(t.outbox, now, 0, t.nextId, t.nextId);
    var ids := ClaimIds(t, now, t.nextId);
    forall id: nat | id < t.nextId && Due(t.outbox, id, now) ensures id in ids {
      if id !in ids { AscendingAtLeast(ids, |ids| - 1); }
    }
  }

  lemma {:induction false} AscendingAtLeast(ids: seq<nat>, i: nat)
    requires i < |ids| && forall i, j :: 0 <= i < j < |ids| ==> ids[i] < ids[j]
    ensures ids[i] >= i
  {
    if i > 0 { AscendingAtLeast(ids, i - 1); }
  }
}
