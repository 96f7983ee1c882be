/**
  The receipt's auth chain: an append-only list of stages in which each stage carries a keyed token over
  the content id of everything in front of it, and a deny that rewrites the chain.
 */
module Receipt {
  import opened Prelude
  import opened Json
  import opened ReceiptDoc

  type Key = string

  datatype Rcpt = Rcpt(doc: Doc, sig: string, cid: string, id: string)

  /** The primitives the chain is built on: NFC, the hash of canonical bytes, the keyed hash, keys of secrets. */
  datatype Hashes = Hashes(
    nfc: string -> string,
    hash: seq<Byte> -> string,
    mac: (Key, string) -> string,
    key: string -> Option<Key>)

  const GENESIS: string := "genesis"
  const DENY_REASON: string := "deny_reason"

  /** The shape of what the primitives return; ids are "b3:" and hexadecimal digits, tokens "hmac:" and such. */
  ghost predicate Lawful(h: Hashes) {
    && KeepsPrintable(h.nfc)
    && (forall bs :: h.hash(bs) != "" && h.hash(bs) != GENESIS && Barless(h.hash(bs)))
    && (forall k, m :: Printable(h.mac(k, m)))
  }

  predicate Barless(s: string) {
    '|' !in s
  }

  /** No two keys or messages share a token. */
  ghost predicate TokensDiffer(h: Hashes) {
    forall k, m, k', m' :: h.mac(k, m) == h.mac(k', m') ==> k == k' && m == m'
  }

  /** No two byte strings share a content id. */
  ghost predicate HashesDiffer(h: Hashes) {
    forall a, b :: h.hash(a) == h.hash(b) ==> a == b
  }

  /** `cid_of`: the hash of the canonical bytes, where there are any. */
  function Cid(h: Hashes, doc: Doc): Option<string> {
    match CanonicalBytes(h.nfc, DocJson(doc))
    case None => None
    case Some(bytes) => Some(h.hash(bytes))
  }

  /** `compute_auth_token_with_key`. */
  function Token(h: Hashes, prior: string, kind: PipelineStage, key: Key): string {
    h.mac(key, prior + "||" + NameOf(kind))
  }

  predicate DocFits(h: Hashes, doc: Doc) {
    ContentsFit(h.nfc, doc) && TokensFit(h.nfc, doc)
  }

  /** A document has a content id exactly when its parts are canonicalisable. */
  lemma CidExists(h: Hashes)
    requires Lawful(h)
    ensures forall d :: Cid(h, d).Some? <==> DocFits(h, d)
    ensures forall d :: Cid(h, d).Some? ==> Cid(h, d).value != "" && Cid(h, d).value != GENESIS && Barless(Cid(h, d).value)
  {
    hide ToNrf, ContentsFit, TokensFit, DocJson, Barless;
    forall d ensures Cid(h, d).Some? <==> DocFits(h, d) { DocConverts(h.nfc, d); }
  }

  // ---------------------------------------------------------------- operations

  function Label(cid: string): string {
    if cid == "" then GENESIS else cid
  }

  /** `recompute_cid`, and whether it succeeded: on failure signature and ids stay cleared. */
  function Recompute(h: Hashes, r: Rcpt): (Rcpt, bool) {
    match Cid(h, r.doc)
    case None => (r.(sig := "", cid := "", id := ""), false)
    case Some(c) => (r.(cid := c, id := c), true)
  }

  predicate TokenMatches(h: Hashes, s: Stage, prior: string, cur: Key, prev: Option<Key>) {
    s.token == Token(h, prior, s.kind, cur) || (prev.Some? && s.token == Token(h, prior, s.kind, prev.value))
  }

  /** The replay loop from stage `i` on, `cid` being the id computed so far; nothing when hashing fails. */
  function Replay(h: Hashes, r: Rcpt, i: nat, cid: string, cur: Key, prev: Option<Key>): Option<bool>
    requires i <= |r.doc.stages|
    decreases |r.doc.stages| - i
  {
    if i == |r.doc.stages| then Some(cid == r.cid)
    else if !TokenMatches(h, r.doc.stages[i], Label(cid), cur, prev) then Some(false)
    else
      match Cid(h, Prefix(r.doc, i + 1))
      case None => None
      case Some(c) => Replay(h, r, i + 1, c, cur, prev)
  }

  /** `verify_auth_chain_with_keys`. */
  function Verify(h: Hashes, r: Rcpt, cur: Key, prev: Option<Key>): Option<bool> {
    Replay(h, r, 0, "", cur, prev)
  }

  datatype Outcome = Done | BadSecret | NotCanonical | BadPrevious | ReplayFailed | Mismatch

  function Keyed(h: Hashes, s: Stage, cid: string, key: Key): Stage {
    s.(token := Token(h, Label(cid), s.kind, key))
  }

  function Push(r: Rcpt, s: Stage): Rcpt {
    r.(doc := r.doc.(stages := r.doc.stages + [s]))
  }

  /** `append_stage_with_secrets`: the receipt afterwards, also when it reports an error. */
  function Append(h: Hashes, r: Rcpt, current: string, previous: Option<string>, s: Stage): (Rcpt, Outcome) {
    match h.key(current)
    case None => (r, BadSecret)
    case Some(cur) =>
      var (after, ok) := Recompute(h, Push(r, Keyed(h, s, r.cid, cur)));
      if !ok then (after, NotCanonical)
      else if previous.Some? && h.key(previous.value).None? then (after, BadPrevious)
      else
        match Verify(h, after, cur, if previous.None? then None else h.key(previous.value))
        case None => (after, ReplayFailed)
        case Some(good) => (after, if good then Done else Mismatch)
  }

  /** The loop of `rebuild_auth_chain_with_current_key`. */
  function Rekey(h: Hashes, doc: Doc, key: Key, done: seq<Stage>, cid: string): Option<seq<Stage>>
    requires |done| <= |doc.stages|
    decreases |doc.stages| - |done|
  {
    if |done| == |doc.stages| then Some(done)
    else
      var next := done + [Keyed(h, doc.stages[|done|], cid, key)];
      match Cid(h, doc.(stages := next))
      case None => None
      case Some(c) => Rekey(h, doc, key, next, c)
  }

  function Rebuild(h: Hashes, doc: Doc, secret: Option<string>): Doc {
    if secret.None? || h.key(secret.value).None? || doc.stages == [] then doc
    else
      match Rekey(h, doc, h.key(secret.value).value, [], "")
      case None => doc
      case Some(stages) => doc.(stages := stages)
  }

  /** `Map::insert`: in place when the name is there, at the end otherwise. */
  function Put(ms: seq<Member>, k: string, v: Json): (r: seq<Member>)
    requires DistinctNames(ms)
    ensures DistinctNames(r)
    ensures forall i :: 0 <= i < |r| ==> r[i] == Member(k, v) || (i < |ms| && r[i] == ms[i] && r[i].key != k)
    ensures Member(k, v) in r && |ms| <= |r|
  {
    if i :| 0 <= i < |ms| && ms[i].key == k then ms[i := Member(k, v)] else ms + [Member(k, v)]
  }

  function Denied(doc: Doc, reason: string): Doc {
    doc.(decision := Decision.Deny,
         effects := if doc.effects.Object? then Object(Put(doc.effects.members, DENY_REASON, Str(reason))) else doc.effects)
  }

  /** The document is denied for this reason as it stands. */
  predicate AlreadyDenied(doc: Doc, reason: string) {
    doc.decision.Deny? && (doc.effects.Object? ==> Member(DENY_REASON, Str(reason)) in doc.effects.members)
  }

  /** `deny_with_secrets`. */
  function DenyWith(h: Hashes, r: Rcpt, reason: string, secret: Option<string>): Rcpt {
    Recompute(h, r.(doc := Rebuild(h, Denied(r.doc, reason), secret))).0
  }

  // ---------------------------------------------------------------- what replay decides

  /** The id a replay holds after `n` stages. */
  function Chain(h: Hashes, doc: Doc, n: nat): string
    requires n <= |doc.stages|
  {
    if n == 0 then ""
    else
      match Cid(h, Prefix(doc, n))
      case None => ""
      case Some(c) => c
  }

  /** Every token is over the id of what is in front of it, and the receipt's id is that of the whole. */
  ghost predicate Intact(h: Hashes, r: Rcpt, cur: Key, prev: Option<Key>) {
    && (r.doc.stages != [] ==> DocFits(h, r.doc))
    && (forall i :: 0 <= i < |r.doc.stages| ==>
          TokenMatches(h, r.doc.stages[i], Label(Chain(h, r.doc, i)), cur, prev))
    && r.cid == Chain(h, r.doc, |r.doc.stages|)
  }

  lemma PrefixFits(h: Hashes, doc: Doc, n: nat)
    requires n <= |doc.stages| && DocFits(h, doc)
    ensures DocFits(h, Prefix(doc, n))
  {
    hide ToNrf, MembersFit, RhoString;
  }

  lemma {:induction false} ReplayDecides(h: Hashes, r: Rcpt, i: nat, cur: Key, prev: Option<Key>)
    requires Lawful(h) && i <= |r.doc.stages|
    ensures Replay(h, r, i, Chain(h, r.doc, i), cur, prev) == Some(true) <==>
            && (i < |r.doc.stages| ==> DocFits(h, r.doc))
            && (forall j :: i <= j < |r.doc.stages| ==>
                  TokenMatches(h, r.doc.stages[j], Label(Chain(h, r.doc, j)), cur, prev))
            && r.cid == Chain(h, r.doc, |r.doc.stages|)
    decreases |r.doc.stages| - i
  {
    hide TokenMatches, DocFits, Cid, Lawful, Barless;
    CidExists(h);
    if i < |r.doc.stages| {
      ReplayDecides(h, r, i + 1, cur, prev);
      WholePrefix(r.doc);
      if DocFits(h, r.doc) { PrefixFits(h, r.doc, i + 1); }
    }
  }

  /** Replay accepts a receipt exactly when its chain is intact. */
  lemma VerifyDecidesIntact(h: Hashes, r: Rcpt, cur: Key, prev: Option<Key>)
    requires Lawful(h)
    ensures Verify(h, r, cur, prev) == Some(true) <==> Intact(h, r, cur, prev)
  {
    hide DocFits, Cid, TokenMatches;
    ReplayDecides(h, r, 0, cur, prev);
  }

  // ---------------------------------------------------------------- the keys behind the tokens

  /** Stage `i` was signed with `keys[i]`, over the document as it is now. */
  ghost predicate SignedWith(h: Hashes, r: Rcpt, keys: seq<Key>) {
    && |keys| == |r.doc.stages|
    && DocFits(h, r.doc)
    && (forall i :: 0 <= i < |keys| ==>
          r.doc.stages[i].token == Token(h, Label(Chain(h, r.doc, i)), r.doc.stages[i].kind, keys[i]))
    && r.cid == Chain(h, r.doc, |keys|)
  }

  ghost predicate Known(keys: seq<Key>, cur: Key, prev: Option<Key>) {
    forall i :: 0 <= i < |keys| ==> keys[i] == cur || prev == Some(keys[i])
  }

  lemma KnownKeysVerify(h: Hashes, r: Rcpt, keys: seq<Key>, cur: Key, prev: Option<Key>)
    requires Lawful(h) && SignedWith(h, r, keys) && Known(keys, cur, prev)
    ensures Verify(h, r, cur, prev) == Some(true)
  {
    hide DocFits, Token, Cid;
    VerifyDecidesIntact(h, r, cur, prev);
  }

  lemma LongerPriorHasBar(p: string, x: string, q: string, y: string)
    requires |q| < |p| && p + "||" + x == q + "||" + y
    ensures !Barless(p)
  {
    assert p[|q|] == (p + "||" + x)[|q|] == (q + "||" + y)[|q|] == '|';
  }

  /** Equal tokens over plain labels come from one label, one stage name and one key. */
  lemma TokenTells(h: Hashes, p: string, s: PipelineStage, k: Key, q: string, t: PipelineStage, l: Key)
    requires TokensDiffer(h) && Barless(p) && Barless(q) && Token(h, p, s, k) == Token(h, q, t, l)
    ensures p == q && s == t && k == l
  {
    hide NameOf, Barless;
    var a, b := p + "||" + NameOf(s), q + "||" + NameOf(t);
    if |q| < |p| { LongerPriorHasBar(p, NameOf(s), q, NameOf(t)); }
    if |p| < |q| { LongerPriorHasBar(q, NameOf(t), p, NameOf(s)); }
    assert p == a[..|p|] && q == b[..|q|] && NameOf(s) == a[|p| + 2..] && NameOf(t) == b[|q| + 2..];
    NamesDiffer(s, t, Allow, Allow);
  }

  lemma LabelsAreBarless(h: Hashes, doc: Doc, n: nat)
    requires Lawful(h) && n <= |doc.stages|
    ensures Barless(Label(Chain(h, doc, n)))
  {
    hide Cid, DocFits;
    CidExists(h);
  }

  /** With collision-free tokens a chain verifies exactly when every stage was signed with a known key. */
  lemma VerifiesExactlyWhenKeysKnown(h: Hashes, r: Rcpt, keys: seq<Key>, cur: Key, prev: Option<Key>)
    requires Lawful(h) && TokensDiffer(h) && SignedWith(h, r, keys)
    ensures Verify(h, r, cur, prev) == Some(true) <==> Known(keys, cur, prev)
  {
    hide DocFits, Token, Cid, Lawful, TokensDiffer, Barless;
    VerifyDecidesIntact(h, r, cur, prev);
    if Intact(h, r, cur, prev) {
      forall i | 0 <= i < |keys| ensures keys[i] == cur || prev == Some(keys[i]) {
        var s, prior := r.doc.stages[i], Label(Chain(h, r.doc, i));
        assert TokenMatches(h, s, prior, cur, prev);
        LabelsAreBarless(h, r.doc, i);
        if s.token == Token(h, prior, s.kind, cur) {
          TokenTells(h, prior, s.kind, keys[i], prior, s.kind, cur);
        } else {
          TokenTells(h, prior, s.kind, keys[i], prior, s.kind, prev.value);
        }
      }
    }
  }

  // ---------------------------------------------------------------- appends

  lemma PushKeepsPrefixes(doc: Doc, s: Stage, n: nat)
    requires n <= |doc.stages|
    ensures Prefix(doc.(stages := doc.stages + [s]), n) == Prefix(doc, n)
  {
    assert (doc.stages + [s])[..n] == doc.stages[..n];
  }

  lemma RecomputedChain(h: Hashes, r: Rcpt)
    requires Lawful(h) && DocFits(h, r.doc) && r.doc.stages != []
    ensures Recompute(h, r).1 && Recompute(h, r).0.doc == r.doc && Recompute(h, r).0.sig == r.sig
    ensures Recompute(h, r).0.cid == Chain(h, r.doc, |r.doc.stages|) && Cid(h, r.doc) == Some(Recompute(h, r).0.cid)
  {
    hide DocFits, Cid, Barless;
    CidExists(h);
    WholePrefix(r.doc);
  }

  lemma TokenFits(h: Hashes, prior: string, kind: PipelineStage, key: Key)
    requires Lawful(h)
    ensures RhoString(h.nfc, Token(h, prior, kind, key))
  {
    PrintableIsRho(h.nfc, Token(h, prior, kind, key));
  }

  /** A document with one stage more fits exactly when the document and the stage do. */
  lemma PushFits(h: Hashes, doc: Doc, s: Stage, cid: string, key: Key)
    requires Lawful(h)
    ensures DocFits(h, doc.(stages := doc.stages + [Keyed(h, s, cid, key)])) <==> DocFits(h, doc) && MembersFit(h.nfc, s.detail)
  {
    hide ToNrf, MembersFit, RhoString, Token;
    var next := Keyed(h, s, cid, key);
    var after := doc.(stages := doc.stages + [next]);
    TokenFits(h, Label(cid), s.kind, key);
    assert after.stages[|doc.stages|] == next;
    assert forall i :: 0 <= i < |doc.stages| ==> after.stages[i] == doc.stages[i];
    if DocFits(h, after) {
      forall i | 0 <= i < |doc.stages|
        ensures MembersFit(h.nfc, doc.stages[i].detail) && RhoString(h.nfc, doc.stages[i].token)
      {
        assert after.stages[i] == doc.stages[i];
      }
    }
  }

  lemma PushSigns(h: Hashes, r: Rcpt, keys: seq<Key>, s: Stage, cur: Key)
    requires Lawful(h) && SignedWith(h, r, keys) && MembersFit(h.nfc, s.detail)
    ensures var (after, ok) := Recompute(h, Push(r, Keyed(h, s, r.cid, cur)));
            ok && SignedWith(h, after, keys + [cur])
  {
    hide DocFits, Cid, Token, MembersFit, Lawful;
    var p := Push(r, Keyed(h, s, r.cid, cur));
    PushFits(h, r.doc, s, r.cid, cur);
    RecomputedChain(h, p);
    var after := Recompute(h, p).0;
    forall i | 0 <= i <= |keys| ensures Chain(h, after.doc, i) == Chain(h, r.doc, i) {
      PushKeepsPrefixes(r.doc, Keyed(h, s, r.cid, cur), i);
    }
  }

  /** An append to a signed chain signs the new stage, and succeeds exactly when every earlier key is known. */
  lemma AppendSigns(h: Hashes, r: Rcpt, keys: seq<Key>, current: string, previous: Option<string>, s: Stage)
    requires Lawful(h) && SignedWith(h, r, keys) && MembersFit(h.nfc, s.detail)
    requires h.key(current).Some? && (previous.Some? ==> h.key(previous.value).Some?)
    ensures var (after, outcome) := Append(h, r, current, previous, s);
            && SignedWith(h, after, keys + [h.key(current).value])
            && (Known(keys, h.key(current).value, KeyOf(h, previous)) ==> outcome == Done)
            && (TokensDiffer(h) ==> (outcome == Done <==> Known(keys, h.key(current).value, KeyOf(h, previous))))
  {
    hide DocFits, SignedWith, Verify, Recompute, TokensDiffer, Lawful, MembersFit;
    var cur, prev := h.key(current).value, KeyOf(h, previous);
    PushSigns(h, r, keys, s, cur);
    var after := Append(h, r, current, previous, s).0;
    KnownAfterPush(keys, cur, prev);
    if Known(keys, cur, prev) { KnownKeysVerify(h, after, keys + [cur], cur, prev); }
    if TokensDiffer(h) { VerifiesExactlyWhenKeysKnown(h, after, keys + [cur], cur, prev); }
  }

  function KeyOf(h: Hashes, secret: Option<string>): Option<Key> {
    if secret.None? then None else h.key(secret.value)
  }

  lemma KnownAfterPush(keys: seq<Key>, cur: Key, prev: Option<Key>)
    ensures Known(keys + [cur], cur, prev) <==> Known(keys, cur, prev)
  {
    if Known(keys + [cur], cur, prev) {
      forall i | 0 <= i < |keys| ensures keys[i] == cur || prev == Some(keys[i]) {
        assert (keys + [cur])[i] == keys[i];
      }
    }
  }

  /** Contents that cannot be canonicalised stay in the receipt and cost it its signature and ids. */
  lemma UnfitAppendClears(h: Hashes, r: Rcpt, current: string, previous: Option<string>, s: Stage)
    requires Lawful(h) && h.key(current).Some?
    ensures Append(h, r, current, previous, s).1 == NotCanonical <==> !(DocFits(h, r.doc) && MembersFit(h.nfc, s.detail))
    ensures var (after, outcome) := Append(h, r, current, previous, s);
            outcome == NotCanonical ==> after.sig == after.cid == after.id == "" && |after.doc.stages| == |r.doc.stages| + 1
  {
    hide Verify, Cid, DocFits, MembersFit, Lawful, Token, Barless;
    CidExists(h);
    PushFits(h, r.doc, s, r.cid, h.key(current).value);
  }

  // ---------------------------------------------------------------- denies

  /** The rebuilt stages differ from the old ones in their tokens only, all signed with one key. */
  ghost predicate RekeyedTo(h: Hashes, doc: Doc, key: Key, stages: seq<Stage>) {
    && |stages| <= |doc.stages|
    && (forall i :: 0 <= i < |stages| ==>
          stages[i] == Keyed(h, doc.stages[i], Chain(h, doc.(stages := stages), i), key))
  }

  lemma RekeyedFits(h: Hashes, doc: Doc, key: Key, stages: seq<Stage>)
    requires Lawful(h) && ContentsFit(h.nfc, doc) && RekeyedTo(h, doc, key, stages)
    ensures DocFits(h, doc.(stages := stages))
  {
    hide ToNrf, MembersFit, RhoString, Token, Cid, Lawful, Chain;
    forall i | 0 <= i < |stages| ensures RhoString(h.nfc, stages[i].token) {
      TokenFits(h, Label(Chain(h, doc.(stages := stages), i)), doc.stages[i].kind, key);
    }
  }

  lemma RekeyStep(h: Hashes, doc: Doc, key: Key, done: seq<Stage>)
    requires Lawful(h) && ContentsFit(h.nfc, doc) && RekeyedTo(h, doc, key, done) && |done| < |doc.stages|
    ensures var d := doc.(stages := done);
            var next := done + [Keyed(h, doc.stages[|done|], Chain(h, d, |done|), key)];
            && RekeyedTo(h, doc, key, next)
            && Cid(h, doc.(stages := next)) == Some(Chain(h, doc.(stages := next), |next|))
  {
    hide ContentsFit, Token, Cid, Lawful, DocFits, Barless;
    var d := doc.(stages := done);
    var s := Keyed(h, doc.stages[|done|], Chain(h, d, |done|), key);
    var next := done + [s];
    forall i | 0 <= i <= |done| ensures Chain(h, doc.(stages := next), i) == Chain(h, d, i) {
      PushKeepsPrefixes(d, s, i);
    }
    assert RekeyedTo(h, doc, key, next);
    RekeyedFits(h, doc, key, next);
    CidExists(h);
    WholePrefix(doc.(stages := next));
  }

  lemma {:induction false} RekeySucceeds(h: Hashes, doc: Doc, key: Key, done: seq<Stage>)
    requires Lawful(h) && ContentsFit(h.nfc, doc) && RekeyedTo(h, doc, key, done)
    ensures var r := Rekey(h, doc, key, done, Chain(h, doc.(stages := done), |done|));
            r.Some? && |r.value| == |doc.stages| && RekeyedTo(h, doc, key, r.value)
    decreases |doc.stages| - |done|
  {
    hide ContentsFit, RekeyedTo, Chain, Lawful, Cid;
    if |done| < |doc.stages| {
      RekeyStep(h, doc, key, done);
      var next := done + [Keyed(h, doc.stages[|done|], Chain(h, doc.(stages := done), |done|), key)];
      RekeySucceeds(h, doc, key, next);
    } else {
      RekeyedLength(h, doc, key, done);
    }
  }

  lemma RekeyedLength(h: Hashes, doc: Doc, key: Key, done: seq<Stage>)
    requires RekeyedTo(h, doc, key, done)
    ensures |done| <= |doc.stages|
  {
  }

  function Copies(key: Key, n: nat): (r: seq<Key>)
    ensures |r| == n && forall i :: 0 <= i < n ==> r[i] == key
  {
    seq(n, i => key)
  }

  /**
    A deny with the current secret repairs any chain that has a stage, whatever its tokens and its id
    were: afterwards every stage is signed with that key and only decision, reason and tokens differ.
   */
  lemma DenyRepairs(h: Hashes, r: Rcpt, reason: string, secret: string)
    requires Lawful(h) && ContentsFit(h.nfc, r.doc) && RhoString(h.nfc, reason)
    requires h.key(secret).Some? && r.doc.stages != []
    ensures var after := DenyWith(h, r, reason, Some(secret));
            && SignedWith(h, after, Copies(h.key(secret).value, |r.doc.stages|))
            && after.doc == Denied(r.doc, reason).(stages := after.doc.stages) && after.sig == r.sig
            && forall i :: 0 <= i < |r.doc.stages| ==>
                 after.doc.stages[i].kind == r.doc.stages[i].kind && after.doc.stages[i].detail == r.doc.stages[i].detail
  {
    hide ContentsFit, Token, Cid, Lawful, DocFits, RhoString, Denied, Put;
    var doc := Denied(r.doc, reason);
    var key := h.key(secret).value;
    DeniedFits(h, r.doc, reason);
    DeniedKeepsStages(r.doc, reason);
    assert RekeyedTo(h, doc, key, []);
    RekeySucceeds(h, doc, key, []);
    var stages := Rekey(h, doc, key, [], "").value;
    var doc' := doc.(stages := stages);
    RekeyedFits(h, doc, key, stages);
    RecomputedChain(h, r.(doc := doc'));
  }

  lemma DeniedKeepsStages(doc: Doc, reason: string)
    ensures Denied(doc, reason).stages == doc.stages && Denied(doc, reason).header == doc.header
  {
  }

  lemma PutFits(nfc: string -> string, ms: seq<Member>, k: string, v: Json)
    requires DistinctNames(ms) && ToNrf(nfc, Object(ms)).Some? && RhoString(nfc, k) && ToNrf(nfc, v).Some?
    ensures ToNrf(nfc, Object(Put(ms, k, v))).Some?
  {
    hide RhoString, Put;
    DistinctMembersConvert(nfc, ms);
    DistinctMembersConvert(nfc, Put(ms, k, v));
    var r := Put(ms, k, v);
    forall i | 0 <= i < |r| ensures MemberConverts(nfc, r[i]) {
      if r[i] != Member(k, v) { assert MemberConverts(nfc, ms[i]); }
    }
  }

  lemma DeniedFits(h: Hashes, doc: Doc, reason: string)
    requires Lawful(h) && ContentsFit(h.nfc, doc) && RhoString(h.nfc, reason)
    ensures ContentsFit(h.nfc, Denied(doc, reason))
    ensures TokensFit(h.nfc, doc) ==> TokensFit(h.nfc, Denied(doc, reason))
  {
    hide RhoString, MembersFit, Put, Printable;
    NamesArePrintable(Knock, Allow);
    PrintableIsRho(h.nfc, DENY_REASON);
    if doc.effects.Object? { PutFits(h.nfc, doc.effects.members, DENY_REASON, Str(reason)); }
  }

  /** A deny before the first stage leaves an id that no replay from genesis reproduces. */
  lemma DenyOnEmptyNeverVerifies(h: Hashes, r: Rcpt, reason: string, secret: Option<string>, cur: Key, prev: Option<Key>)
    requires Lawful(h) && DocFits(h, r.doc) && RhoString(h.nfc, reason) && r.doc.stages == []
    ensures Verify(h, DenyWith(h, r, reason, secret), cur, prev) == Some(false)
  {
    hide Cid, ContentsFit, TokensFit, Lawful, Put, RhoString, Barless;
    CidExists(h);
    DeniedFits(h, r.doc, reason);
  }

  /** After such a deny the next append is refused: its token is not over the genesis label. */
  lemma AppendAfterEmptyDenyFails(h: Hashes, r: Rcpt, reason: string, secret: Option<string>, current: string,
                                  previous: Option<string>, s: Stage)
    requires Lawful(h) && TokensDiffer(h) && DocFits(h, r.doc) && RhoString(h.nfc, reason)
    requires MembersFit(h.nfc, s.detail) && r.doc.stages == []
    requires h.key(current).Some? && (previous.Some? ==> h.key(previous.value).Some?)
    ensures Append(h, DenyWith(h, r, reason, secret), current, previous, s).1 == Mismatch
  {
    hide Cid, ContentsFit, TokensFit, Lawful, Put, RhoString, Token, TokensDiffer, MembersFit, Barless;
    CidExists(h);
    DeniedFits(h, r.doc, reason);
    var d := DenyWith(h, r, reason, secret);
    assert d.doc == Denied(r.doc, reason) && d.cid != "" && d.cid != GENESIS && Barless(d.cid);
    var cur, prev := h.key(current).value, KeyOf(h, previous);
    var next := Keyed(h, s, d.cid, cur);
    PushFits(h, d.doc, s, d.cid, cur);
    assert Push(d, next).doc.stages[0] == next;
    assert !TokenMatches(h, next, GENESIS, cur, prev) by { WrongPrior(h, s, d.cid, cur, prev); }
  }

  lemma WrongPrior(h: Hashes, s: Stage, cid: string, cur: Key, prev: Option<Key>)
    requires TokensDiffer(h) && cid != "" && cid != GENESIS && Barless(cid)
    ensures !TokenMatches(h, Keyed(h, s, cid, cur), GENESIS, cur, prev)
  {
    hide Token, TokensDiffer;
    var next := Keyed(h, s, cid, cur);
    assert Barless(GENESIS);
    if next.token == Token(h, GENESIS, s.kind, cur) { TokenTells(h, cid, s.kind, cur, GENESIS, s.kind, cur); }
    if prev.Some? && next.token == Token(h, GENESIS, s.kind, prev.value) {
      TokenTells(h, cid, s.kind, cur, GENESIS, s.kind, prev.value);
    }
  }

  // ---------------------------------------------------------------- what a content id pins

  /** Two canonicalisable documents share a content id exactly when they are the same up to member order and nulls. */
  lemma CidTellsSameDoc(h: Hashes, c: Doc, d: Doc)
    requires Lawful(h) && HashesDiffer(h) && DocFits(h, c) && DocFits(h, d) && ShortDoc(c) && ShortDoc(d)
    ensures Cid(h, c) == Cid(h, d) <==> SameDoc(c, d)
  {
    hide ToNrf, ContentsFit, TokensFit, DocJson, Short, Equiv, CanonicalBytes;
    DocConverts(h.nfc, c);
    DocConverts(h.nfc, d);
    ShortBytesDecideEquivalence(h.nfc, DocJson(c), DocJson(d));
    assert CanonicalBytes(h.nfc, DocJson(c)).Some? && CanonicalBytes(h.nfc, DocJson(d)).Some? by {
      BytesExist(h.nfc, DocJson(c));
      BytesExist(h.nfc, DocJson(d));
    }
  }

  lemma BytesExist(nfc: string -> string, j: Json)
    ensures CanonicalBytes(nfc, j).Some? <==> ToNrf(nfc, j).Some?
  {
  }

  lemma AlreadyDeniedExactly(doc: Doc, reason: string)
    ensures AlreadyDenied(doc, reason) <==> Denied(doc, reason) == doc
  {
  }

  /** A denial changes the document, as the hash sees it, unless the document carries it already. */
  lemma DenialShows(doc: Doc, reason: string)
    requires SameDoc(Denied(doc, reason), doc)
    ensures AlreadyDenied(doc, reason)
  {
    hide SameDoc, Equiv, Put;
    SameDocParts(Denied(doc, reason), doc);
    if doc.effects.Object? {
      var ms := doc.effects.members;
      var r := Put(ms, DENY_REASON, Str(reason));
      var i :| 0 <= i < |r| && r[i] == Member(DENY_REASON, Str(reason));
      var k := EquivLeft(r, ms, i);
      EquivShape(r[i].value, ms[k].value);
      assert ms[k] == Member(DENY_REASON, Str(reason));
    }
  }

  /**
    A deny that has no secret to rebuild with keeps a verifying chain verifying exactly when the chain has
    a single stage or already carries this denial.
   */
  lemma DenyWithoutSecretExactly(h: Hashes, r: Rcpt, keys: seq<Key>, reason: string, cur: Key, prev: Option<Key>)
    requires Lawful(h) && TokensDiffer(h) && HashesDiffer(h) && SignedWith(h, r, keys) && Known(keys, cur, prev) && keys != []
    requires RhoString(h.nfc, reason) && ShortDoc(r.doc) && ShortDoc(Denied(r.doc, reason))
    ensures Verify(h, DenyWith(h, r, reason, None), cur, prev) == Some(true) <==>
            |keys| == 1 || AlreadyDenied(r.doc, reason)
  {
    hide ContentsFit, TokensFit, Cid, Token, Lawful, TokensDiffer, HashesDiffer, ShortDoc, RhoString, Denied, AlreadyDenied;
    var doc := Denied(r.doc, reason);
    DeniedFits(h, r.doc, reason);
    DeniedKeepsStages(r.doc, reason);
    AlreadyDeniedExactly(r.doc, reason);
    RecomputedChain(h, r.(doc := doc));
    var after := DenyWith(h, r, reason, None);
    assert after.doc == doc;
    VerifyDecidesIntact(h, after, cur, prev);
    if |keys| > 1 { SecondTokenPinsDocument(h, r, keys, reason, cur, prev); }
  }

  lemma SecondTokenPinsDocument(h: Hashes, r: Rcpt, keys: seq<Key>, reason: string, cur: Key, prev: Option<Key>)
    requires Lawful(h) && TokensDiffer(h) && HashesDiffer(h) && SignedWith(h, r, keys) && |keys| > 1
    requires Denied(r.doc, reason).stages == r.doc.stages && DocFits(h, Denied(r.doc, reason))
    requires ShortDoc(r.doc) && ShortDoc(Denied(r.doc, reason))
    ensures var doc := Denied(r.doc, reason);
            TokenMatches(h, doc.stages[1], Label(Chain(h, doc, 1)), cur, prev) ==> AlreadyDenied(r.doc, reason)
  {
    hide Cid, Token, Lawful, TokensDiffer, HashesDiffer, ShortDoc, DocFits, AlreadyDenied, Barless;
    var doc := Denied(r.doc, reason);
    PrefixFits(h, r.doc, 1);
    PrefixFits(h, doc, 1);
    CidExists(h);
    var s, prior, was := doc.stages[1], Label(Chain(h, doc, 1)), Label(Chain(h, r.doc, 1));
    if TokenMatches(h, s, prior, cur, prev) {
      LabelsAreBarless(h, doc, 1);
      LabelsAreBarless(h, r.doc, 1);
      assert s.token == Token(h, was, s.kind, keys[1]);
      TokenTells(h, was, s.kind, keys[1], prior, s.kind, if s.token == Token(h, prior, s.kind, cur) then cur else prev.value);
      assert Cid(h, Prefix(doc, 1)) == Cid(h, Prefix(r.doc, 1));
      ShortPrefix(doc, 1);
      ShortPrefix(r.doc, 1);
      CidTellsSameDoc(h, Prefix(doc, 1), Prefix(r.doc, 1));
      assert Prefix(doc, 1) == Denied(Prefix(r.doc, 1), reason);
      DenialShows(Prefix(r.doc, 1), reason);
      assert AlreadyDenied(r.doc, reason) by { PrefixDenied(r.doc, reason); }
    }
  }

  lemma PrefixDenied(doc: Doc, reason: string)
    requires |doc.stages| > 0 && AlreadyDenied(Prefix(doc, 1), reason)
    ensures AlreadyDenied(doc, reason)
  {
  }

  /**
    In two verifying receipts equal tokens stand at the same place, under the same stage name, behind histories
    that are the same up to member order and nulls, decision and effects included.
   */
  lemma TokenPinsHistory(h: Hashes, a: Rcpt, b: Rcpt, ka: Key, pa: Option<Key>, kb: Key, pb: Option<Key>, i: nat, j: nat)
    requires Lawful(h) && TokensDiffer(h) && HashesDiffer(h) && ShortDoc(a.doc) && ShortDoc(b.doc)
    requires Verify(h, a, ka, pa) == Some(true) && Verify(h, b, kb, pb) == Some(true)
    requires i < |a.doc.stages| && j < |b.doc.stages| && a.doc.stages[i].token == b.doc.stages[j].token
    ensures i == j && a.doc.stages[i].kind == b.doc.stages[j].kind
    ensures i > 0 ==> SameDoc(Prefix(a.doc, i), Prefix(b.doc, j))
  {
    hide Cid, Token, Lawful, TokensDiffer, HashesDiffer, ShortDoc, DocFits, Barless, SameDoc;
    VerifyDecidesIntact(h, a, ka, pa);
    VerifyDecidesIntact(h, b, kb, pb);
    CidExists(h);
    var p, q := Label(Chain(h, a.doc, i)), Label(Chain(h, b.doc, j));
    LabelsAreBarless(h, a.doc, i);
    LabelsAreBarless(h, b.doc, j);
    var s, t := a.doc.stages[i], b.doc.stages[j];
    assert TokenMatches(h, s, p, ka, pa) && TokenMatches(h, t, q, kb, pb);
    TokenTells(h, p, s.kind, if s.token == Token(h, p, s.kind, ka) then ka else pa.value,
               q, t.kind, if t.token == Token(h, q, t.kind, kb) then kb else pb.value);
    PrefixFits(h, a.doc, i);
    PrefixFits(h, b.doc, j);
    if i > 0 && j > 0 {
      ShortPrefix(a.doc, i);
      ShortPrefix(b.doc, j);
      CidTellsSameDoc(h, Prefix(a.doc, i), Prefix(b.doc, j));
      SameDocParts(Prefix(a.doc, i), Prefix(b.doc, j));
    }
  }

  /** Two verifying receipts with stages have one content id exactly when they are the same up to member order and nulls. */
  lemma CidPinsDocument(h: Hashes, a: Rcpt, b: Rcpt, ka: Key, pa: Option<Key>, kb: Key, pb: Option<Key>)
    requires Lawful(h) && HashesDiffer(h) && ShortDoc(a.doc) && ShortDoc(b.doc)
    requires a.doc.stages != [] && b.doc.stages != []
    requires Verify(h, a, ka, pa) == Some(true) && Verify(h, b, kb, pb) == Some(true)
    ensures a.cid == b.cid <==> SameDoc(a.doc, b.doc)
  {
    hide Cid, Lawful, HashesDiffer, ShortDoc, DocFits, Barless, SameDoc;
    VerifyDecidesIntact(h, a, ka, pa);
    VerifyDecidesIntact(h, b, kb, pb);
    CidExists(h);
    WholePrefix(a.doc);
    WholePrefix(b.doc);
    CidTellsSameDoc(h, a.doc, b.doc);
  }

  /** A null member more in the effects. */
  function WithNull(doc: Doc, name: string): Doc
    requires doc.effects == Object([])
  {
    doc.(effects := Object([Member(name, Null)]))
  }

  lemma NullMemberVanishes(nfc: string -> string, doc: Doc, name: string)
    requires doc.effects == Object([]) && RhoString(nfc, name)
    ensures ToNrf(nfc, DocJson(WithNull(doc, name))) == ToNrf(nfc, DocJson(doc))
  {
    hide RhoString;
    var one := [Member(name, Null)];
    assert one[..0] == [];
    assert ToNrfMembers(nfc, one) == Some([]);
    assert ToNrf(nfc, Object(one)) == ToNrf(nfc, Object([]));
    var ms, ns := DocMembers(doc), DocMembers(WithNull(doc, name));
    var last := |ms| - 1;
    assert ms[..last] == ns[..last];
  }

  /** Tampering that replay cannot see: a null member added to the effects of a verifying receipt. */
  lemma NullMemberGoesUnseen(h: Hashes, r: Rcpt, name: string, cur: Key, prev: Option<Key>)
    requires r.doc.effects == Object([]) && RhoString(h.nfc, name)
    ensures var forged := r.(doc := WithNull(r.doc, name));
            forged.doc != r.doc && Verify(h, forged, cur, prev) == Verify(h, r, cur, prev)
  {
    hide Cid, RhoString, TokenMatches;
    ForgedReplay(h, r, name, 0, "", cur, prev);
    assert [Member(name, Null)] != [];
  }

  lemma {:induction false} ForgedReplay(h: Hashes, r: Rcpt, name: string, i: nat, cid: string, cur: Key, prev: Option<Key>)
    requires r.doc.effects == Object([]) && RhoString(h.nfc, name) && i <= |r.doc.stages|
    ensures Replay(h, r.(doc := WithNull(r.doc, name)), i, cid, cur, prev) == Replay(h, r, i, cid, cur, prev)
    decreases |r.doc.stages| - i
  {
    hide RhoString, TokenMatches, ToNrf;
    if i < |r.doc.stages| {
      var p := Prefix(r.doc, i + 1);
      NullMemberVanishes(h.nfc, p, name);
      assert Prefix(WithNull(r.doc, name), i + 1) == WithNull(p, name);
      assert Cid(h, WithNull(p, name)) == Cid(h, p);
      if Cid(h, p).Some? { ForgedReplay(h, r, name, i + 1, Cid(h, p).value, cur, prev); }
    }
  }

  // ---------------------------------------------------------------- whole runs

  datatype Step = AppendStage(s: Stage) | DenyNow(reason: string) | Sign(sig: string) | Rotate(secret: string)

  /** A run: the receipt, the secrets in force, the key behind each stage, and whether every append succeeded. */
  datatype Session = Session(r: Rcpt, current: string, previous: Option<string>, keys: seq<Key>, allDone: bool)

  ghost predicate Started(h: Hashes, s: Session) {
    && s.r.doc.stages == [] && s.r.cid == "" && s.keys == [] && s.allDone && s.previous == None
    && h.key(s.current).Some? && DocFits(h, s.r.doc)
  }

  function Take(h: Hashes, s: Session, step: Step): Session
    requires h.key(s.current).Some?
  {
    match step
    case AppendStage(stage) =>
      var (after, outcome) := Append(h, s.r, s.current, s.previous, stage);
      s.(r := after, keys := s.keys + [h.key(s.current).value], allDone := s.allDone && outcome == Done)
    case DenyNow(reason) =>
      s.(r := DenyWith(h, s.r, reason, Some(s.current)), keys := Copies(h.key(s.current).value, |s.keys|))
    case Sign(sig) => s.(r := s.r.(sig := sig))
    case Rotate(secret) => s.(current := secret, previous := Some(s.current))
  }

  /** Contents fit, new secrets are usable, and nothing is denied before the first stage. */
  predicate StepAllowed(h: Hashes, s: Session, step: Step) {
    match step
    case AppendStage(stage) => MembersFit(h.nfc, stage.detail)
    case DenyNow(reason) => RhoString(h.nfc, reason) && s.r.doc.stages != []
    case Sign(_) => true
    case Rotate(secret) => h.key(secret).Some?
  }

  ghost predicate Reached(h: Hashes, s0: Session, steps: seq<Step>, s: Session)
    decreases |steps|
  {
    if steps == [] then s == s0
    else
      exists mid ::
        && Reached(h, s0, steps[..|steps| - 1], mid) && h.key(mid.current).Some?
        && StepAllowed(h, mid, steps[|steps| - 1]) && s == Take(h, mid, steps[|steps| - 1])
  }

  ghost predicate Sound(h: Hashes, s: Session) {
    && SignedWith(h, s.r, s.keys) && h.key(s.current).Some?
    && (s.previous.Some? ==> h.key(s.previous.value).Some?)
  }

  lemma StepKeepsSound(h: Hashes, s: Session, step: Step)
    requires Lawful(h) && Sound(h, s) && StepAllowed(h, s, step)
    ensures Sound(h, Take(h, s, step))
    ensures step.AppendStage? && Known(s.keys, h.key(s.current).value, KeyOf(h, s.previous)) ==>
              Take(h, s, step).allDone == s.allDone
  {
    hide Append, DenyWith, TokensDiffer, Known, Lawful, MembersFit, RhoString, ContentsFit, TokensFit, Token, Chain;
    match step
    case AppendStage(stage) =>
      AppendSigns(h, s.r, s.keys, s.current, s.previous, stage);
    case DenyNow(reason) =>
      DenyRepairs(h, s.r, reason, s.current);
    case Sign(_) =>
    case Rotate(_) =>
  }

  /** Over every run, with any number of rotations, each token is over the present document. */
  lemma {:induction false} RunsStaySound(h: Hashes, s0: Session, steps: seq<Step>, s: Session)
    requires Lawful(h) && Started(h, s0) && Reached(h, s0, steps, s)
    ensures Sound(h, s)
    decreases |steps|
  {
    hide StepAllowed, Take, Lawful, DocFits, Token;
    if steps != [] {
      var mid :| Reached(h, s0, steps[..|steps| - 1], mid) && h.key(mid.current).Some?
                 && StepAllowed(h, mid, steps[|steps| - 1]) && s == Take(h, mid, steps[|steps| - 1]);
      RunsStaySound(h, s0, steps[..|steps| - 1], mid);
      StepKeepsSound(h, mid, steps[|steps| - 1]);
    }
  }

  /** So after any run replay succeeds exactly when no stage was left behind by two rotations. */
  lemma RunVerifiesExactly(h: Hashes, s0: Session, steps: seq<Step>, s: Session)
    requires Lawful(h) && TokensDiffer(h) && Started(h, s0) && Reached(h, s0, steps, s)
    ensures h.key(s.current).Some?
    ensures Verify(h, s.r, h.key(s.current).value, KeyOf(h, s.previous)) == Some(true) <==>
            Known(s.keys, h.key(s.current).value, KeyOf(h, s.previous))
  {
    hide Lawful, TokensDiffer, Reached, Started, SignedWith, Verify, Known;
    RunsStaySound(h, s0, steps, s);
    VerifiesExactlyWhenKeysKnown(h, s.r, s.keys, h.key(s.current).value, KeyOf(h, s.previous));
  }

  function Rotations(steps: seq<Step>): nat {
    if steps == [] then 0
    else Rotations(steps[..|steps| - 1]) + if steps[|steps| - 1].Rotate? then 1 else 0
  }

  /** With at most one rotation every key is the current or the previous one. */
  lemma {:induction false} OneRotationKeepsKeysKnown(h: Hashes, s0: Session, steps: seq<Step>, s: Session)
    requires Lawful(h) && Started(h, s0) && Reached(h, s0, steps, s) && Rotations(steps) <= 1
    ensures h.key(s.current).Some? && Known(s.keys, h.key(s.current).value, KeyOf(h, s.previous)) && s.allDone
    ensures Rotations(steps) == 0 ==> s.previous == None
    decreases |steps|
  {
    hide Lawful, DocFits, Append, DenyWith, Sound, SignedWith, MembersFit, RhoString;
    if steps != [] {
      var before, step := steps[..|steps| - 1], steps[|steps| - 1];
      var mid :| Reached(h, s0, before, mid) && h.key(mid.current).Some? && StepAllowed(h, mid, step) && s == Take(h, mid, step);
      OneRotationKeepsKeysKnown(h, s0, before, mid);
      RunsStaySound(h, s0, before, mid);
      StepKeepsSound(h, mid, step);
      KnownAfterPush(mid.keys, h.key(mid.current).value, KeyOf(h, mid.previous));
    }
  }

  /** In every run with at most one rotation all appends succeed and replay accepts the receipt. */
  lemma EveryRunVerifies(h: Hashes, s0: Session, steps: seq<Step>, s: Session)
    requires Lawful(h) && Started(h, s0) && Reached(h, s0, steps, s) && Rotations(steps) <= 1
    ensures s.allDone && h.key(s.current).Some?
    ensures Verify(h, s.r, h.key(s.current).value, KeyOf(h, s.previous)) == Some(true)
  {
    hide Lawful, Reached, Started, SignedWith, Verify, Known;
    RunsStaySound(h, s0, steps, s);
    OneRotationKeepsKeysKnown(h, s0, steps, s);
    KnownKeysVerify(h, s.r, s.keys, h.key(s.current).value, KeyOf(h, s.previous));
  }

  // ---------------------------------------------------------------- the assumptions can be met

  function Tally(n: nat): string {
    if n == 0 then "c" else "b" + Tally(n - 1)
  }

  function Spell(ns: seq<nat>): string {
    if ns == [] then "" else Tally(ns[0]) + Spell(ns[1..])
  }

  function Codes(s: string): (r: seq<nat>)
    ensures |r| == |s| && forall i :: 0 <= i < |s| ==> r[i] == s[i] as nat
  {
    seq(|s|, i requires 0 <= i < |s| => s[i] as nat)
  }

  lemma {:induction false} TallyEnds(a: nat, x: string, b: nat, y: string)
    requires Tally(a) + x == Tally(b) + y
    ensures a == b && x == y
  {
    var s, t := Tally(a) + x, Tally(b) + y;
    assert s[0] == Tally(a)[0] && t[0] == Tally(b)[0];
    if a == 0 || b == 0 {
      assert s[1..] == x && t[1..] == y;
    } else {
      assert s[1..] == Tally(a - 1) + x && t[1..] == Tally(b - 1) + y;
      TallyEnds(a - 1, x, b - 1, y);
    }
  }

  lemma {:induction false} SpellInjective(a: seq<nat>, b: seq<nat>)
    requires Spell(a) == Spell(b)
    ensures a == b
  {
    if a != [] && b != [] {
      TallyEnds(a[0], Spell(a[1..]), b[0], Spell(b[1..]));
      SpellInjective(a[1..], b[1..]);
      assert a == [a[0]] + a[1..] && b == [b[0]] + b[1..];
    } else {
      assert forall n: nat :: Tally(n) != "";
    }
  }

  predicate Letters(s: string) {
    forall i :: 0 <= i < |s| ==> 'a' <= s[i] <= 'c'
  }

  lemma {:induction false} TallyLetters(n: nat)
    ensures Letters(Tally(n))
  {
    if n > 0 { TallyLetters(n - 1); }
  }

  lemma {:induction false} SpellLetters(ns: seq<nat>)
    ensures Letters(Spell(ns))
  {
    if ns != [] {
      TallyLetters(ns[0]);
      SpellLetters(ns[1..]);
    }
  }

  function SpelledHash(bs: seq<Byte>): string {
    "a" + Spell(bs)
  }

  function SpelledMac(k: Key, m: string): string {
    Tally(|k|) + Spell(Codes(k + m))
  }

  lemma SpelledMacInjective(k: Key, m: string, k': Key, m': string)
    requires SpelledMac(k, m) == SpelledMac(k', m')
    ensures k == k' && m == m'
  {
    TallyEnds(|k|, Spell(Codes(k + m)), |k'|, Spell(Codes(k' + m')));
    SpellInjective(Codes(k + m), Codes(k' + m'));
    var a, b := k + m, k' + m';
    assert |a| == |b| && forall i :: 0 <= i < |a| ==> a[i] == b[i] by {
      forall i | 0 <= i < |a| ensures a[i] == b[i] { assert Codes(a)[i] == Codes(b)[i]; }
    }
    assert a == b;
    assert k == a[..|k|] && k' == b[..|k|] && m == a[|k|..] && m' == b[|k|..];
  }

  /** Primitives with all the properties assumed of them exist, so no lemma above is empty. */
  lemma AssumptionsCanBeMet()
    ensures exists h :: Lawful(h) && TokensDiffer(h) && HashesDiffer(h)
  {
    hide Spell, Tally;
    var h := Hashes(s => s, bs => SpelledHash(bs), (k, m) => SpelledMac(k, m), s => Some(s));
    forall bs: seq<Byte> ensures h.hash(bs) != "" && h.hash(bs) != GENESIS && Barless(h.hash(bs)) {
      SpellLetters(bs);
      assert h.hash(bs)[0] == 'a';
    }
    forall k, m ensures Printable(h.mac(k, m)) {
      TallyLetters(|k|);
      SpellLetters(Codes(k + m));
    }
    forall k, m, k', m' | h.mac(k, m) == h.mac(k', m') ensures k == k' && m == m' { SpelledMacInjective(k, m, k', m'); }
    forall a: seq<Byte>, b: seq<Byte> | h.hash(a) == h.hash(b) ensures a == b {
      assert Spell(a) == h.hash(a)[1..] == h.hash(b)[1..] == Spell(b);
      SpellInjective(a, b);
    }
    assert Lawful(h);
  }
}
