/** The receipt as the JSON document that its content id is taken over, and which documents share an id. */
module ReceiptDoc {
  import opened Prelude
  import opened Json
  import N = Nrf

  datatype PipelineStage = Knock | WriteAhead | Check | Transition | WriteFinished

  /** `as_str`, which is also the serialised form. */
  function NameOf(stage: PipelineStage): string {
    match stage
    case Knock => "KNOCK"
    case WriteAhead => "WA"
    case Check => "CHECK"
    case Transition => "TR"
    case WriteFinished => "WF"
  }

  datatype Decision = Allow | Deny | Require

  function DecisionText(d: Decision): string {
    match d
    case Allow => "Allow"
    case Deny => "Deny"
    case Require => "Require"
  }

  predicate Avoids(ms: seq<Member>, names: set<string>) {
    forall i :: 0 <= i < |ms| ==> ms[i].key !in names
  }

  /** The fields of a stage other than its name and token. */
  type Detail = ms: seq<Member> | DistinctNames(ms) && Avoids(ms, {"stage", "auth_token"}) witness []

  datatype Stage = Stage(kind: PipelineStage, detail: Detail, token: string)

  /** The fields that do not change once the receipt exists, the emptied signature and ids among them. */
  type Header = ms: seq<Member> | DistinctNames(ms) && Avoids(ms, {"stages", "decision", "effects"}) witness []

  /** A JSON value as serde holds it: an object has one member a name. */
  type Effects = j: Json | j.Object? ==> DistinctNames(j.members) witness Null

  datatype Doc = Doc(header: Header, stages: seq<Stage>, decision: Decision, effects: Effects)

  function StageMembers(s: Stage): seq<Member> {
    s.detail + [Member("stage", Str(NameOf(s.kind))), Member("auth_token", Str(s.token))]
  }

  function StagesJson(stages: seq<Stage>): (r: seq<Json>)
    ensures |r| == |stages| && forall i :: 0 <= i < |r| ==> r[i] == Object(StageMembers(stages[i]))
  {
    seq(|stages|, i requires 0 <= i < |stages| => Object(StageMembers(stages[i])))
  }

  function DocMembers(doc: Doc): seq<Member> {
    doc.header
    + [Member("stages", Array(StagesJson(doc.stages))),
       Member("decision", Str(DecisionText(doc.decision))),
       Member("effects", doc.effects)]
  }

  /** What `serde_json::to_value` makes of the receipt while its content id is computed. */
  function DocJson(doc: Doc): Json {
    Object(DocMembers(doc))
  }

  // ---------------------------------------------------------------- reading the document back

  /** The stage that deserialises from a name. */
  function StageNamed(s: string): Option<PipelineStage> {
    if s == "KNOCK" then Some(Knock)
    else if s == "WA" then Some(WriteAhead)
    else if s == "CHECK" then Some(Check)
    else if s == "TR" then Some(Transition)
    else if s == "WF" then Some(WriteFinished)
    else None
  }

  function DecisionNamed(s: string): Option<Decision> {
    if s == "Allow" then Some(Allow) else if s == "Deny" then Some(Deny) else if s == "Require" then Some(Require) else None
  }

  ghost predicate ReadsAsStage(j: Json, s: Stage) {
    && j.Object? && (forall m :: m in s.detail ==> m in j.members)
    && (exists name :: Member("stage", Str(name)) in j.members && StageNamed(name) == Some(s.kind))
    && Member("auth_token", Str(s.token)) in j.members
  }

  /** Every part of the receipt stands in the document under its own name, and reads back as it was. */
  ghost predicate ReadsAsDoc(j: Json, doc: Doc) {
    && j.Object? && (forall m :: m in doc.header ==> m in j.members)
    && (exists js :: && Member("stages", Array(js)) in j.members && |js| == |doc.stages|
                     && forall i :: 0 <= i < |js| ==> ReadsAsStage(js[i], doc.stages[i]))
    && (exists text :: Member("decision", Str(text)) in j.members && DecisionNamed(text) == Some(doc.decision))
    && Member("effects", doc.effects) in j.members
  }

  lemma StageReadsBack(s: Stage)
    ensures ReadsAsStage(Object(StageMembers(s)), s)
  {
    var ms, n := StageMembers(s), |s.detail|;
    assert ms[n] == Member("stage", Str(NameOf(s.kind))) && ms[n + 1] == Member("auth_token", Str(s.token));
    assert StageNamed(NameOf(s.kind)) == Some(s.kind);
  }

  /** The document loses nothing: no name is taken twice, and all parts read back. */
  lemma DocReadsBack(doc: Doc)
    ensures DistinctNames(DocMembers(doc)) && ReadsAsDoc(DocJson(doc), doc)
  {
    hide ReadsAsStage, StageMembers;
    var ms, n := DocMembers(doc), |doc.header|;
    var js, text := StagesJson(doc.stages), DecisionText(doc.decision);
    forall i | 0 <= i < |js| ensures ReadsAsStage(js[i], doc.stages[i]) { StageReadsBack(doc.stages[i]); }
    assert ms[n] == Member("stages", Array(js)) && ms[n + 1] == Member("decision", Str(text)) && ms[n + 2] == Member("effects", doc.effects);
    assert DecisionNamed(text) == Some(doc.decision);
  }

  // ---------------------------------------------------------------- which documents convert

  predicate Printable(s: string) {
    forall i :: 0 <= i < |s| ==> ' ' <= s[i] < 127 as char
  }

  ghost predicate KeepsPrintable(nfc: string -> string) {
    forall s :: Printable(s) ==> nfc(s) == s
  }

  lemma PrintableIsRho(nfc: string -> string, s: string)
    requires KeepsPrintable(nfc) && Printable(s)
    ensures RhoString(nfc, s)
  {
  }

  lemma NamesArePrintable(k: PipelineStage, d: Decision)
    ensures Printable("stage") && Printable("auth_token") && Printable("stages") && Printable("decision") && Printable("effects")
    ensures Printable(NameOf(k)) && Printable(DecisionText(d)) && Printable("deny_reason")
  {
  }

  predicate MembersFit(nfc: string -> string, ms: seq<Member>) {
    forall i :: 0 <= i < |ms| ==> MemberConverts(nfc, ms[i])
  }

  predicate StageFits(nfc: string -> string, s: Stage) {
    MembersFit(nfc, s.detail) && RhoString(nfc, s.token)
  }

  /** Header, stage details and effects are such as the canonical encoder takes. */
  predicate ContentsFit(nfc: string -> string, doc: Doc) {
    && MembersFit(nfc, doc.header)
    && (forall i :: 0 <= i < |doc.stages| ==> MembersFit(nfc, doc.stages[i].detail))
    && ToNrf(nfc, doc.effects).Some?
  }

  predicate TokensFit(nfc: string -> string, doc: Doc) {
    forall i :: 0 <= i < |doc.stages| ==> RhoString(nfc, doc.stages[i].token)
  }

  lemma JoinDistinct(ms: seq<Member>, ns: seq<Member>, names: set<string>)
    requires DistinctNames(ms) && DistinctNames(ns) && Avoids(ms, names)
    requires forall i :: 0 <= i < |ns| ==> ns[i].key in names
    ensures DistinctNames(ms + ns)
  {
  }

  lemma JoinFits(nfc: string -> string, ms: seq<Member>, ns: seq<Member>)
    ensures MembersFit(nfc, ms + ns) <==> MembersFit(nfc, ms) && MembersFit(nfc, ns)
  {
    hide MemberConverts;
    if MembersFit(nfc, ms + ns) {
      forall i | 0 <= i < |ms| ensures MemberConverts(nfc, ms[i]) { assert (ms + ns)[i] == ms[i]; }
      forall i | 0 <= i < |ns| ensures MemberConverts(nfc, ns[i]) { assert (ms + ns)[|ms| + i] == ns[i]; }
    }
  }

  /** Members with distinct names make an object that converts exactly when they fit. */
  lemma ObjectConverts(nfc: string -> string, ms: seq<Member>)
    requires DistinctNames(ms)
    ensures ToNrf(nfc, Object(ms)).Some? <==> MembersFit(nfc, ms)
  {
    hide ToNrfMembers, MemberConverts;
    DistinctMembersConvert(nfc, ms);
  }

  lemma StageConverts(nfc: string -> string, s: Stage)
    requires KeepsPrintable(nfc)
    ensures ToNrf(nfc, Object(StageMembers(s))).Some? <==> StageFits(nfc, s)
  {
    hide RhoString, KeepsPrintable, Printable, NameOf, MembersFit, ToNrf, DistinctNames, Avoids;
    var more := [Member("stage", Str(NameOf(s.kind))), Member("auth_token", Str(s.token))];
    NamesArePrintable(s.kind, Allow);
    PrintableIsRho(nfc, "stage");
    PrintableIsRho(nfc, "auth_token");
    PrintableIsRho(nfc, NameOf(s.kind));
    assert DistinctNames(more) by { TwoNamesDiffer(more); }
    JoinDistinct(s.detail, more, {"stage", "auth_token"});
    ObjectConverts(nfc, s.detail + more);
    JoinFits(nfc, s.detail, more);
    NameAndTokenFit(nfc, more);
  }

  lemma TwoNamesDiffer(ms: seq<Member>)
    requires |ms| == 2 && ms[0].key == "stage" && ms[1].key == "auth_token"
    ensures DistinctNames(ms)
  {
  }

  lemma NameAndTokenFit(nfc: string -> string, more: seq<Member>)
    requires |more| == 2 && (forall i :: 0 <= i < 2 ==> RhoString(nfc, more[i].key) && more[i].value.Str?)
    requires RhoString(nfc, more[0].value.s)
    ensures MembersFit(nfc, more) <==> RhoString(nfc, more[1].value.s)
  {
    hide RhoString;
    assert MembersFit(nfc, more) <==> MemberConverts(nfc, more[0]) && MemberConverts(nfc, more[1]);
  }

  lemma StagesConvert(nfc: string -> string, stages: seq<Stage>)
    requires KeepsPrintable(nfc)
    ensures ToNrf(nfc, Array(StagesJson(stages))).Some? <==> forall i :: 0 <= i < |stages| ==> StageFits(nfc, stages[i])
  {
    hide StageFits, KeepsPrintable, StageMembers;
    ItemsConvertExactly(nfc, StagesJson(stages));
    forall i | 0 <= i < |stages| ensures ToNrf(nfc, StagesJson(stages)[i]).Some? <==> StageFits(nfc, stages[i]) {
      StageConverts(nfc, stages[i]);
    }
  }

  /** A document converts exactly when its contents and its tokens do. */
  lemma DocConverts(nfc: string -> string, doc: Doc)
    requires KeepsPrintable(nfc)
    ensures ToNrf(nfc, DocJson(doc)).Some? <==> ContentsFit(nfc, doc) && TokensFit(nfc, doc)
  {
    hide RhoString, KeepsPrintable, Printable, StagesJson;
    var more := [Member("stages", Array(StagesJson(doc.stages))), Member("decision", Str(DecisionText(doc.decision))), Member("effects", doc.effects)];
    NamesArePrintable(Knock, doc.decision);
    PrintableIsRho(nfc, "stages");
    PrintableIsRho(nfc, "decision");
    PrintableIsRho(nfc, "effects");
    PrintableIsRho(nfc, DecisionText(doc.decision));
    JoinDistinct(doc.header, more, {"stages", "decision", "effects"});
    ObjectConverts(nfc, doc.header + more);
    JoinFits(nfc, doc.header, more);
    StagesConvert(nfc, doc.stages);
    TailFits(nfc, more);
  }

  lemma TailFits(nfc: string -> string, more: seq<Member>)
    requires |more| == 3 && forall i :: 0 <= i < 3 ==> RhoString(nfc, more[i].key)
    requires more[0].value.Array? && more[1].value.Str? && RhoString(nfc, more[1].value.s)
    ensures MembersFit(nfc, more) <==> ToNrf(nfc, more[0].value).Some? && ToNrf(nfc, more[2].value).Some?
  {
    hide RhoString, ToNrfItems, ToNrfMembers;
    assert MembersFit(nfc, more) <==>
           MemberConverts(nfc, more[0]) && MemberConverts(nfc, more[1]) && MemberConverts(nfc, more[2]);
  }

  // ---------------------------------------------------------------- which documents are the same

  /** Equal up to member order and null members, which is all that canonical bytes keep. */
  ghost predicate SameDoc(c: Doc, d: Doc) {
    Equiv(DocJson(c), DocJson(d))
  }

  ghost predicate SameStage(s: Stage, t: Stage) {
    s.kind == t.kind && s.token == t.token && Equiv(Object(s.detail), Object(t.detail))
  }

  /** A name's place among members of distinct names. */
  lemma PartnerIsNamesake(ms: seq<Member>, ns: seq<Member>, i: nat, j: nat)
    requires Equiv(Object(ms), Object(ns)) && DistinctNames(ns)
    requires i < |ms| && Live(ms[i]) && j < |ns| && ns[j].key == ms[i].key
    ensures Live(ns[j]) && Equiv(ms[i].value, ns[j].value)
  {
    hide Equiv;
    var k := EquivLeft(ms, ns, i);
    assert k == j;
  }

  lemma NamesDiffer(k: PipelineStage, l: PipelineStage, d: Decision, e: Decision)
    ensures NameOf(k) == NameOf(l) <==> k == l
    ensures DecisionText(d) == DecisionText(e) <==> d == e
  {
  }

  /** Members in front of some with other names are matched among themselves. */
  lemma FrontsMatch(ms: seq<Member>, xs: seq<Member>, ns: seq<Member>, ys: seq<Member>, names: set<string>)
    requires Equiv(Object(ms + xs), Object(ns + ys)) && Avoids(ms, names) && Avoids(ns, names)
    requires (forall i :: 0 <= i < |xs| ==> xs[i].key in names) && (forall i :: 0 <= i < |ys| ==> ys[i].key in names)
    ensures Equiv(Object(ms), Object(ns))
  {
    forall i | 0 <= i < |ms| && Live(ms[i]) ensures EquivToSome(ms[i], ns) {
      assert (ms + xs)[i] == ms[i];
      var k := EquivLeft(ms + xs, ns + ys, i);
      assert k < |ns| && (ns + ys)[k] == ns[k];
    }
    forall k | 0 <= k < |ns| && Live(ns[k]) ensures SomeEquivTo(ms, ns[k]) {
      assert (ns + ys)[k] == ns[k];
      var i := EquivRight(ms + xs, ns + ys, k);
      assert i < |ms| && (ms + xs)[i] == ms[i];
    }
  }

  lemma SameStageParts(s: Stage, t: Stage)
    requires Equiv(Object(StageMembers(s)), Object(StageMembers(t)))
    ensures SameStage(s, t)
  {
    hide Equiv, NameOf;
    var ms, ns := StageMembers(s), StageMembers(t);
    var xs, ys := ms[|s.detail|..], ns[|t.detail|..];
    assert ms == s.detail + xs && ns == t.detail + ys;
    JoinDistinct(t.detail, ys, {"stage", "auth_token"});
    PartnerIsNamesake(ms, ns, |s.detail|, |t.detail|);
    PartnerIsNamesake(ms, ns, |s.detail| + 1, |t.detail| + 1);
    EquivShape(ms[|s.detail|].value, ns[|t.detail|].value);
    EquivShape(ms[|s.detail| + 1].value, ns[|t.detail| + 1].value);
    NamesDiffer(s.kind, t.kind, Allow, Allow);
    FrontsMatch(s.detail, xs, t.detail, ys, {"stage", "auth_token"});
  }

  /** The same document has the same stages, tokens and decision, and the same header and effects up to order and nulls. */
  lemma SameDocParts(c: Doc, d: Doc)
    requires SameDoc(c, d)
    ensures |c.stages| == |d.stages| && forall i :: 0 <= i < |c.stages| ==> SameStage(c.stages[i], d.stages[i])
    ensures c.decision == d.decision
    ensures Equiv(Object(c.header), Object(d.header)) && Equiv(c.effects, d.effects)
  {
    hide Equiv, DecisionText, SameStage, StageMembers;
    var ms, ns := DocMembers(c), DocMembers(d);
    var m, n := |c.header|, |d.header|;
    var xs, ys := ms[m..], ns[n..];
    assert ms == c.header + xs && ns == d.header + ys;
    var names := {"stages", "decision", "effects"};
    JoinDistinct(c.header, xs, names);
    JoinDistinct(d.header, ys, names);
    FrontsMatch(c.header, xs, d.header, ys, names);
    PartnerIsNamesake(ms, ns, m, n);
    PartnerIsNamesake(ms, ns, m + 1, n + 1);
    EquivShape(ms[m].value, ns[n].value);
    EquivShape(ms[m + 1].value, ns[n + 1].value);
    NamesDiffer(Knock, Knock, c.decision, d.decision);
    forall i | 0 <= i < |c.stages| ensures SameStage(c.stages[i], d.stages[i]) {
      assert Equiv(StagesJson(c.stages)[i], StagesJson(d.stages)[i]);
      SameStageParts(c.stages[i], d.stages[i]);
    }
    EffectsMatch(ms, ns, m + 2, n + 2);
  }

  lemma EffectsMatch(ms: seq<Member>, ns: seq<Member>, i: nat, j: nat)
    requires Equiv(Object(ms), Object(ns)) && DistinctNames(ms) && DistinctNames(ns)
    requires i < |ms| && j < |ns| && ns[j].key == ms[i].key
    ensures Equiv(ms[i].value, ns[j].value)
  {
    hide Equiv;
    if Live(ms[i]) {
      PartnerIsNamesake(ms, ns, i, j);
    } else {
      if Live(ns[j]) {
        var _ := EquivRight(ms, ns, j);
      }
      NullsMatch();
    }
  }

  lemma NullsMatch()
    ensures Equiv(Null, Null)
  {
  }

  // ---------------------------------------------------------------- prefixes

  function Prefix(doc: Doc, n: nat): Doc
    requires n <= |doc.stages|
  {
    doc.(stages := doc.stages[..n])
  }

  lemma WholePrefix(doc: Doc)
    ensures Prefix(doc, |doc.stages|) == doc
  {
    assert doc.stages[..|doc.stages|] == doc.stages;
  }

  ghost predicate ShortDoc(doc: Doc) {
    Short(DocJson(doc))
  }

  lemma ShortPrefix(doc: Doc, n: nat)
    requires n <= |doc.stages| && ShortDoc(doc)
    ensures ShortDoc(Prefix(doc, n))
  {
    var p := Prefix(doc, n);
    var ms, ns := DocMembers(doc), DocMembers(p);
    var m := |doc.header|;
    assert Short(ms[m].value);
    forall i | 0 <= i < n ensures Short(StagesJson(p.stages)[i]) {
      assert StagesJson(p.stages)[i] == StagesJson(doc.stages)[i];
    }
    forall i | 0 <= i < |ns| ensures N.TextFits(ns[i].key) && Short(ns[i].value) {
      if i != m { assert ns[i] == ms[i]; } else { assert ns[i].key == ms[i].key; }
    }
  }
}
