/** Policy circuits: conditions, reasoning bits, and trees of circuits evaluated in sequence, in parallel or by branch. */
module Circuits {
  import opened Prelude

  datatype Decision = Allow | Deny | Require

  /** `V` stands for JSON values, of which the evaluator only asks whether two are equal. */
  datatype Expression<V> =
    | Always(b: bool)
    | ContextHas(key: string)
    | ContextEquals(key: string, expected: V)
    | BodySizeLte(limit: nat)
    | TypeEquals(name: string)
    | And(all: seq<Expression<V>>)
    | Or(any: seq<Expression<V>>)
    | Not(e: Expression<V>)

  /** `chipType` is the chip's "@type" where that is a string. */
  datatype Context<V> = Context(chipType: Option<string>, bodySize: nat, variables: map<string, V>)

  predicate Eval<V(==)>(e: Expression<V>, ctx: Context<V>) {
    match e
    case Always(b) => b
    case ContextHas(key) => key in ctx.variables
    case ContextEquals(key, expected) => key in ctx.variables && ctx.variables[key] == expected
    case BodySizeLte(limit) => ctx.bodySize <= limit
    case TypeEquals(name) => ctx.chipType == Some(name)
    case And(all) => forall i :: 0 <= i < |all| ==> Eval(all[i], ctx)
    case Or(any) => exists i :: 0 <= i < |any| && Eval(any[i], ctx)
    case Not(e) => !Eval(e, ctx)
  }

  /** When a condition holds of a context, kind by kind. */
  ghost predicate Holds<V>(e: Expression<V>, ctx: Context<V>) {
    && (e.Always? ==> e.b)
    && (e.ContextHas? ==> e.key in ctx.variables.Keys)
    && (e.ContextEquals? ==> (e.key, e.expected) in ctx.variables.Items)
    && (e.BodySizeLte? ==> ctx.bodySize <= e.limit)
    && (e.TypeEquals? ==> ctx.chipType.Some? && ctx.chipType.value == e.name)
    && (e.And? ==> !exists i :: 0 <= i < |e.all| && !Holds(e.all[i], ctx))
    && (e.Or? ==> !forall i :: 0 <= i < |e.any| ==> !Holds(e.any[i], ctx))
    && (e.Not? ==> !Holds(e.e, ctx))
  }

  /** Evaluation finds exactly the conditions that hold. */
  lemma {:induction false} EvalDecidesHolds<V>(e: Expression<V>, ctx: Context<V>)
    ensures Eval(e, ctx) <==> Holds(e, ctx)
  {
    match e
    case And(all) => forall i | 0 <= i < |all| ensures Eval(all[i], ctx) <==> Holds(all[i], ctx) { EvalDecidesHolds(all[i], ctx); }
    case Or(any) => forall i | 0 <= i < |any| ensures Eval(any[i], ctx) <==> Holds(any[i], ctx) { EvalDecidesHolds(any[i], ctx); }
    case Not(e) => EvalDecidesHolds(e, ctx);
    case _ =>
  }

  const TYPE_KEY: string := "@type"

  // ---------------------------------------------------------------- inputs

  /** The keys that `inputs_used` reports, as a set. */
  function Inputs<V>(e: Expression<V>): set<string> {
    match e
    case Always(_) => {}
    case ContextHas(key) => {key}
    case ContextEquals(key, _) => {key}
    case BodySizeLte(_) => {}
    case TypeEquals(_) => {TYPE_KEY}
    case And(all) => InputsOfAll(all)
    case Or(any) => InputsOfAll(any)
    case Not(e) => Inputs(e)
  }

  function InputsOfAll<V>(es: seq<Expression<V>>): set<string> {
    if es == [] then {} else Inputs(es[0]) + InputsOfAll(es[1..])
  }

  /** The key is asked for somewhere in the condition. */
  ghost predicate AsksFor<V>(e: Expression<V>, key: string) {
    || (e.ContextHas? && e.key == key)
    || (e.ContextEquals? && e.key == key)
    || (e.TypeEquals? && key == "@type")
    || (e.And? && exists i :: 0 <= i < |e.all| && AsksFor(e.all[i], key))
    || (e.Or? && exists i :: 0 <= i < |e.any| && AsksFor(e.any[i], key))
    || (e.Not? && AsksFor(e.e, key))
  }

  /** The keys reported are those asked for, at any depth, and no others. */
  lemma {:induction false} InputsExactly<V>(e: Expression<V>, key: string)
    ensures key in Inputs(e) <==> AsksFor(e, key)
  {
    match e
    case And(all) => InputsOfAllExactly(all, key);
    case Or(any) => InputsOfAllExactly(any, key);
    case Not(e) => InputsExactly(e, key);
    case _ =>
  }

  lemma {:induction false} InputsOfAllExactly<V>(es: seq<Expression<V>>, key: string)
    ensures key in InputsOfAll(es) <==> exists i :: 0 <= i < |es| && AsksFor(es[i], key)
  {
    hide Inputs, AsksFor;
    if es != [] {
      InputsExactly(es[0], key);
      InputsOfAllExactly(es[1..], key);
      if i :| 0 <= i < |es[1..]| && AsksFor(es[1..][i], key) { assert AsksFor(es[i + 1], key); }
      if i :| 0 <= i < |es| && AsksFor(es[i], key) {
        if i > 0 { assert AsksFor(es[1..][i - 1], key); }
      }
    }
  }

  /** `inputs_used` before it is sorted: keys pushed in the order in which they occur. */
  method CollectInputs<V>(e: Expression<V>, inputs: seq<string>) returns (out: seq<string>)
    ensures |out| >= |inputs| && out[..|inputs|] == inputs
    ensures forall k :: k in out <==> k in inputs || k in Inputs(e)
    decreases e
  {
    match e
    case ContextHas(key) => out := inputs + [key];
    case ContextEquals(key, _) => out := inputs + [key];
    case TypeEquals(_) => out := inputs + [TYPE_KEY];
    case And(all) => out := CollectAll(all, inputs);
    case Or(any) => out := CollectAll(any, inputs);
    case Not(e) => out := CollectInputs(e, inputs);
    case Always(_) => out := inputs;
    case BodySizeLte(_) => out := inputs;
  }

  method CollectAll<V>(es: seq<Expression<V>>, inputs: seq<string>) returns (out: seq<string>)
    ensures |out| >= |inputs| && out[..|inputs|] == inputs
    ensures forall k :: k in out <==> k in inputs || k in InputsOfAll(es)
    decreases es
  {
    out := inputs;
    for i := 0 to |es|
      invariant |out| >= |inputs| && out[..|inputs|] == inputs
      invariant forall k :: k in out || k in InputsOfAll(es[i..]) <==> k in inputs || k in InputsOfAll(es)
      invariant forall k :: k in out ==> k in inputs || k in InputsOfAll(es)
    {
      assert es[i..][0] == es[i] && es[i..][1..] == es[i + 1..];
      out := CollectInputs(es[i], out);
    }
  }

  /** The order of Rust strings: that of their scalar values, which UTF-8 keeps. */
  predicate TextLess(a: string, b: string) {
    b != [] && (a == [] || a[0] < b[0] || (a[0] == b[0] && TextLess(a[1..], b[1..])))
  }

  lemma {:induction false} TextLessTotal(a: string, b: string)
    ensures TextLess(a, b) || a == b || TextLess(b, a)
  {
    if a != [] && b != [] && a[0] == b[0] {
      TextLessTotal(a[1..], b[1..]);
      assert a == [a[0]] + a[1..] && b == [b[0]] + b[1..];
    }
  }

  lemma {:induction false} TextLessTransitive(a: string, b: string, c: string)
    requires TextLess(a, b) && TextLess(b, c)
    ensures TextLess(a, c)
  {
    if a != [] && a[0] == b[0] == c[0] { TextLessTransitive(a[1..], b[1..], c[1..]); }
  }

  ghost predicate StrictlyRising(ks: seq<string>) {
    forall i, j :: 0 <= i < j < |ks| ==> TextLess(ks[i], ks[j])
  }

  /** A key put in its place, once. */
  function Placed(k: string, ks: seq<string>): seq<string> {
    if ks == [] || TextLess(k, ks[0]) then [k] + ks
    else if k == ks[0] then ks
    else [ks[0]] + Placed(k, ks[1..])
  }

  lemma {:induction false} PlacedProperties(k: string, ks: seq<string>)
    requires StrictlyRising(ks)
    ensures StrictlyRising(Placed(k, ks))
    ensures forall x :: x in Placed(k, ks) <==> x == k || x in ks
  {
    hide TextLess;
    var r := Placed(k, ks);
    if ks != [] && TextLess(k, ks[0]) {
      forall j | 0 <= j < |ks| ensures TextLess(k, ks[j]) {
        if j > 0 { TextLessTransitive(k, ks[0], ks[j]); }
      }
      assert forall j :: 0 < j < |r| ==> r[j] == ks[j - 1];
    } else if ks != [] && k != ks[0] {
      var tail := Placed(k, ks[1..]);
      PlacedProperties(k, ks[1..]);
      TextLessTotal(k, ks[0]);
      assert ks == [ks[0]] + ks[1..];
      forall j | 0 <= j < |tail| ensures TextLess(ks[0], tail[j]) {
        assert tail[j] in tail;
        if tail[j] in ks[1..] {
          var m :| 0 <= m < |ks[1..]| && ks[1..][m] == tail[j];
          assert ks[m + 1] == tail[j];
        }
      }
      assert forall j :: 0 < j < |r| ==> r[j] == tail[j - 1];
    }
  }

  /** `inputs_used`: every key that occurs, once, in order. */
  method InputsUsed<V>(e: Expression<V>) returns (keys: seq<string>)
    ensures StrictlyRising(keys)
    ensures forall k :: k in keys <==> AsksFor(e, k)
  {
    hide TextLess, Inputs, AsksFor;
    forall k ensures k in Inputs(e) <==> AsksFor(e, k) { InputsExactly(e, k); }
    var pushed := CollectInputs(e, []);
    keys := [];
    for i := 0 to |pushed|
      invariant StrictlyRising(keys)
      invariant forall k :: k in keys <==> k in pushed[..i]
    {
      assert pushed[..i + 1] == pushed[..i] + [pushed[i]];
      PlacedProperties(pushed[i], keys);
      keys := Placed(pushed[i], keys);
    }
    assert pushed[..|pushed|] == pushed;
  }

  /** Two contexts that look the same under these keys. */
  ghost predicate Agree<V(!new)>(a: Context<V>, b: Context<V>, keys: set<string>) {
    && a.bodySize == b.bodySize
    && (TYPE_KEY in keys ==> a.chipType == b.chipType)
    && forall k :: k in keys ==> (k in a.variables <==> k in b.variables) && (k in a.variables ==> a.variables[k] == b.variables[k])
  }

  lemma {:induction false} InputsOfMember<V>(es: seq<Expression<V>>, i: nat)
    requires i < |es|
    ensures Inputs(es[i]) <= InputsOfAll(es)
  {
    if i > 0 { InputsOfMember(es[1..], i - 1); }
  }

  lemma AgreeOnFewer<V(!new)>(a: Context<V>, b: Context<V>, keys: set<string>, fewer: set<string>)
    requires Agree(a, b, keys) && fewer <= keys
    ensures Agree(a, b, fewer)
  {
  }

  /** A condition depends on nothing but the keys it reports and the body size. */
  lemma {:induction false} ConditionDependsOnInputs<V(!new)>(e: Expression<V>, a: Context<V>, b: Context<V>)
    requires Agree(a, b, Inputs(e))
    ensures Eval(e, a) == Eval(e, b)
  {
    match e
    case And(all) => AllDependOnInputs(all, a, b);
    case Or(any) => AllDependOnInputs(any, a, b);
    case Not(e) => ConditionDependsOnInputs(e, a, b);
    case Always(_) =>
    case ContextHas(key) =>
    case ContextEquals(key, _) =>
    case BodySizeLte(_) =>
    case TypeEquals(_) =>
  }

  lemma {:induction false} AllDependOnInputs<V(!new)>(es: seq<Expression<V>>, a: Context<V>, b: Context<V>)
    requires Agree(a, b, InputsOfAll(es))
    ensures forall i :: 0 <= i < |es| ==> Eval(es[i], a) == Eval(es[i], b)
  {
    forall i | 0 <= i < |es| ensures Eval(es[i], a) == Eval(es[i], b) {
      InputsOfMember(es, i);
      AgreeOnFewer(a, b, InputsOfAll(es), Inputs(es[i]));
      ConditionDependsOnInputs(es[i], a, b);
    }
  }

  // ---------------------------------------------------------------- bits and aggregation

  datatype Bit<V> = Bit(condition: Expression<V>, onTrue: Decision, onFalse: Decision)

  function BitDecision<V(==)>(bit: Bit<V>, ctx: Context<V>): Decision {
    if Eval(bit.condition, ctx) then bit.onTrue else bit.onFalse
  }

  function Decisions<V(==)>(bits: seq<Bit<V>>, ctx: Context<V>): (r: seq<Decision>)
    ensures |r| == |bits| && forall i :: 0 <= i < |r| ==> r[i] == BitDecision(bits[i], ctx)
  {
    seq(|bits|, i requires 0 <= i < |bits| => BitDecision(bits[i], ctx))
  }

  /** What a bit says: one decision where its condition holds, the other where it does not. */
  ghost predicate Says<V>(bit: Bit<V>, ctx: Context<V>, d: Decision) {
    && (Holds(bit.condition, ctx) ==> d == bit.onTrue)
    && (!Holds(bit.condition, ctx) ==> d == bit.onFalse)
  }

  /** The votes of the first bits, one each. */
  ghost predicate Votes<V>(bits: seq<Bit<V>>, ctx: Context<V>, ds: seq<Decision>) {
    |ds| <= |bits| && forall i :: 0 <= i < |ds| ==> Says(bits[i], ctx, ds[i])
  }

  lemma DecisionsAreVotes<V>(bits: seq<Bit<V>>, ctx: Context<V>, ds: seq<Decision>)
    ensures Votes(bits, ctx, ds) <==> |ds| <= |bits| && ds == Decisions(bits, ctx)[..|ds|]
  {
    forall i | 0 <= i < |bits| ensures Eval(bits[i].condition, ctx) <==> Holds(bits[i].condition, ctx) {
      EvalDecidesHolds(bits[i].condition, ctx);
    }
    if |ds| <= |bits| && ds == Decisions(bits, ctx)[..|ds|] {
      assert forall i :: 0 <= i < |ds| ==> ds[i] == BitDecision(bits[i], ctx);
    }
  }

  datatype Aggregator = All | Any | Majority | KofN(k: nat, n: nat) | FirstDecisive

  function Allows(ds: seq<Decision>): (n: nat)
    ensures n <= |ds|
  {
    if ds == [] then 0 else Allows(ds[..|ds| - 1]) + if ds[|ds| - 1].Allow? then 1 else 0
  }

  function FirstOther(ds: seq<Decision>): Decision {
    if ds == [] then Require else if !ds[0].Require? then ds[0] else FirstOther(ds[1..])
  }

  function Aggregate(agg: Aggregator, ds: seq<Decision>): Decision {
    if ds == [] then Allow
    else
      match agg
      case All => if Deny in ds then Deny else if Require in ds then Require else Allow
      case Any => if Allow in ds then Allow else Deny
      case Majority => if Allows(ds) > |ds| / 2 then Allow else Deny
      case KofN(k, _) => if Allows(ds) >= k then Allow else Deny
      case FirstDecisive => FirstOther(ds)
  }

  /** The places of the votes for Allow. */
  ghost function Supporters(ds: seq<Decision>): set<nat> {
    set i: nat | i < |ds| && ds[i] == Allow
  }

  lemma {:induction false} AllowsCountsSupporters(ds: seq<Decision>)
    ensures Allows(ds) == |Supporters(ds)|
  {
    if ds == [] {
      assert Supporters(ds) == {};
    } else {
      var n := |ds| - 1;
      AllowsCountsSupporters(ds[..n]);
      assert Supporters(ds) == Supporters(ds[..n]) + if ds[n] == Allow then {n} else {};
    }
  }

  /** The vote that decides: the first that is not Require. */
  ghost predicate DecidesAt(ds: seq<Decision>, i: nat) {
    i < |ds| && ds[i] != Require && forall j :: 0 <= j < i ==> ds[j] == Require
  }

  lemma {:induction false} FirstOtherDecides(ds: seq<Decision>, i: nat)
    requires DecidesAt(ds, i)
    ensures FirstOther(ds) == ds[i]
  {
    if i > 0 {
      assert ds[0] == Require;
      assert DecidesAt(ds[1..], i - 1);
      FirstOtherDecides(ds[1..], i - 1);
    }
  }

  lemma {:induction false} FirstOtherOfRequires(ds: seq<Decision>)
    requires forall i :: 0 <= i < |ds| ==> ds[i] == Require
    ensures FirstOther(ds) == Require
  {
    if ds != [] { FirstOtherOfRequires(ds[1..]); }
  }

  /** What an aggregator makes of votes, counted one by one; without votes everything is allowed. */
  ghost predicate Verdict(agg: Aggregator, ds: seq<Decision>, d: Decision) {
    if ds == [] then d == Allow
    else
      match agg
      case All => (d == Allow <==> |Supporters(ds)| == |ds|) && (d == Deny <==> exists i :: 0 <= i < |ds| && ds[i] == Deny)
      case Any => d == if |Supporters(ds)| >= 1 then Allow else Deny
      case Majority => d == if 2 * |Supporters(ds)| > |ds| then Allow else Deny
      case KofN(k, _) => d == if |Supporters(ds)| >= k then Allow else Deny
      case FirstDecisive =>
        && (forall i: nat :: DecidesAt(ds, i) ==> d == ds[i])
        && ((forall i :: 0 <= i < |ds| ==> ds[i] == Require) ==> d == Require)
  }

  lemma AggregateMeans(agg: Aggregator, ds: seq<Decision>)
    ensures Verdict(agg, ds, Aggregate(agg, ds))
  {
    AllowsCountsSupporters(ds);
    AllAllowsExactly(ds);
    SomeAllowsExactly(ds);
    if agg.FirstDecisive? {
      forall i: nat | DecidesAt(ds, i) ensures Aggregate(agg, ds) == ds[i] { FirstOtherDecides(ds, i); }
      if forall i :: 0 <= i < |ds| ==> ds[i] == Require { FirstOtherOfRequires(ds); }
    }
  }

  lemma {:induction false} SomeVoteDecides(ds: seq<Decision>)
    ensures (forall i :: 0 <= i < |ds| ==> ds[i] == Require) || exists i: nat :: DecidesAt(ds, i)
  {
    if ds != [] {
      var n := |ds| - 1;
      SomeVoteDecides(ds[..n]);
      if i: nat :| DecidesAt(ds[..n], i) {
        assert DecidesAt(ds, i);
      } else if ds[n] != Require {
        assert DecidesAt(ds, n);
      }
    }
  }

  /** There is one verdict for any votes. */
  lemma VerdictIsUnique(agg: Aggregator, ds: seq<Decision>, d: Decision, d': Decision)
    requires Verdict(agg, ds, d) && Verdict(agg, ds, d')
    ensures d == d'
  {
    SomeVoteDecides(ds);
  }

  lemma {:induction false} AllAllowsExactly(ds: seq<Decision>)
    ensures Allows(ds) == |ds| <==> Deny !in ds && Require !in ds
  {
    if ds != [] {
      AllAllowsExactly(ds[..|ds| - 1]);
      assert ds == ds[..|ds| - 1] + [ds[|ds| - 1]];
    }
  }

  lemma {:induction false} SomeAllowsExactly(ds: seq<Decision>)
    ensures Allows(ds) >= 1 <==> Allow in ds
  {
    if ds != [] {
      SomeAllowsExactly(ds[..|ds| - 1]);
      assert ds == ds[..|ds| - 1] + [ds[|ds| - 1]];
    }
  }

  // ---------------------------------------------------------------- circuits

  datatype Circuit<V> = Circuit(bits: seq<Bit<V>>, mode: Mode<V>, aggregator: Aggregator)

  datatype Mode<V> = Sequential | Parallel | Conditional(branches: seq<Branch<V>>)

  datatype Branch<V> = Branch(condition: Expression<V>, thenCircuit: Circuit<V>, elseCircuit: Option<Circuit<V>>)

  /** The first branch whose condition holds, or their number. */
  function FirstMatch<V(==)>(branches: seq<Branch<V>>, ctx: Context<V>): (i: nat)
    ensures i <= |branches| && (i < |branches| ==> Eval(branches[i].condition, ctx))
    ensures forall j :: 0 <= j < i ==> !Eval(branches[j].condition, ctx)
  {
    if branches == [] || Eval(branches[0].condition, ctx) then 0 else 1 + FirstMatch(branches[1..], ctx)
  }

  /** The leaf that the conditions lead to; none when no branch matches and there is no else. */
  function Leaf<V(==)>(c: Circuit<V>, ctx: Context<V>): (r: Option<Circuit<V>>)
    ensures r.Some? ==> !r.value.mode.Conditional?
    decreases c
  {
    match c.mode
    case Sequential => Some(c)
    case Parallel => Some(c)
    case Conditional(branches) =>
      var i := FirstMatch(branches, ctx);
      if i < |branches| then Leaf(branches[i].thenCircuit, ctx)
      else if branches != [] && branches[0].elseCircuit.Some? then Leaf(branches[0].elseCircuit.value, ctx)
      else None
  }

  /** What a leaf decides: in sequence the first Deny is final. */
  function LeafDecision<V(==)>(leaf: Circuit<V>, ctx: Context<V>): Decision {
    var ds := Decisions(leaf.bits, ctx);
    if leaf.mode.Sequential? && Deny in ds then Deny else Aggregate(leaf.aggregator, ds)
  }

  function Decide<V(==)>(c: Circuit<V>, ctx: Context<V>): Decision {
    match Leaf(c, ctx)
    case None => Deny
    case Some(leaf) => LeafDecision(leaf, ctx)
  }

  /** The branch in charge: its condition holds and none before it does. */
  ghost predicate Takes<V>(branches: seq<Branch<V>>, ctx: Context<V>, i: nat) {
    i < |branches| && Holds(branches[i].condition, ctx) && forall j :: 0 <= j < i ==> !Holds(branches[j].condition, ctx)
  }

  /**
    What a circuit rules. A leaf rules by the votes of its bits, in sequence by the first Deny; a conditional
    circuit as the branch in charge does, if none is as the first branch's else, and Deny if there is no else.
   */
  ghost predicate Rules<V>(c: Circuit<V>, ctx: Context<V>, d: Decision)
    decreases c
  {
    match c.mode
    case Sequential =>
      exists ds :: Votes(c.bits, ctx, ds) && |ds| == |c.bits| && if Deny in ds then d == Deny else Verdict(c.aggregator, ds, d)
    case Parallel => exists ds :: Votes(c.bits, ctx, ds) && |ds| == |c.bits| && Verdict(c.aggregator, ds, d)
    case Conditional(branches) =>
      || (exists i: nat :: Takes(branches, ctx, i) && Rules(branches[i].thenCircuit, ctx, d))
      || (&& !(exists i: nat :: Takes(branches, ctx, i))
          && if branches != [] && branches[0].elseCircuit.Some? then Rules(branches[0].elseCircuit.value, ctx, d) else d == Deny)
  }

  lemma FirstMatchTakes<V>(branches: seq<Branch<V>>, ctx: Context<V>)
    ensures var i := FirstMatch(branches, ctx);
            if i < |branches| then Takes(branches, ctx, i) && forall k: nat :: Takes(branches, ctx, k) ==> k == i
            else forall k: nat :: !Takes(branches, ctx, k)
  {
    forall k | 0 <= k < |branches| ensures Eval(branches[k].condition, ctx) <==> Holds(branches[k].condition, ctx) {
      EvalDecidesHolds(branches[k].condition, ctx);
    }
  }

  lemma LeafRules<V>(c: Circuit<V>, ctx: Context<V>, d: Decision)
    requires !c.mode.Conditional?
    ensures Rules(c, ctx, d) <==> d == LeafDecision(c, ctx)
  {
    hide Aggregate, Verdict, BitDecision, Votes;
    var ds := Decisions(c.bits, ctx);
    assert ds[..|ds|] == ds;
    DecisionsAreVotes(c.bits, ctx, ds);
    AggregateMeans(c.aggregator, ds);
    forall es | Votes(c.bits, ctx, es) && |es| == |c.bits| ensures es == ds { DecisionsAreVotes(c.bits, ctx, es); }
    if Verdict(c.aggregator, ds, d) { VerdictIsUnique(c.aggregator, ds, d, Aggregate(c.aggregator, ds)); }
  }

  /** Evaluation comes to exactly what the circuit rules, in every context. */
  lemma {:induction false} DecideRules<V>(c: Circuit<V>, ctx: Context<V>, d: Decision)
    ensures Rules(c, ctx, d) <==> d == Decide(c, ctx)
    decreases c
  {
    hide LeafDecision, Takes;
    if c.mode.Conditional? {
      var bs := c.mode.branches;
      FirstMatchTakes(bs, ctx);
      var i := FirstMatch(bs, ctx);
      if i < |bs| {
        DecideRules(bs[i].thenCircuit, ctx, d);
        assert Decide(c, ctx) == Decide(bs[i].thenCircuit, ctx);
        assert Rules(c, ctx, d) <==> Rules(bs[i].thenCircuit, ctx, d);
      } else if bs != [] && bs[0].elseCircuit.Some? {
        DecideRules(bs[0].elseCircuit.value, ctx, d);
      }
    } else {
      LeafRules(c, ctx, d);
    }
  }

  // ---------------------------------------------------------------- evaluation

  datatype CircuitResult = CircuitResult(decision: Decision, results: seq<Decision>, shortCircuited: bool)

  /** `aggregate_results`. */
  method AggregateResults(agg: Aggregator, ds: seq<Decision>) returns (r: CircuitResult)
    ensures r == CircuitResult(Aggregate(agg, ds), ds, false)
    ensures Verdict(agg, ds, r.decision)
  {
    AggregateMeans(agg, ds);
    hide Verdict;
    if ds == [] { return CircuitResult(Allow, [], false); }
    var decision;
    match agg {
      case All => decision := if Deny in ds then Deny else if Require in ds then Require else Allow;
      case Any => decision := if Allow in ds then Allow else Deny;
      case Majority =>
        var n := CountAllows(ds);
        decision := if n > |ds| / 2 then Allow else Deny;
      case KofN(k, _) =>
        var n := CountAllows(ds);
        decision := if n >= k then Allow else Deny;
      case FirstDecisive =>
        decision := Require;
        for i := 0 to |ds|
          invariant FirstOther(ds) == FirstOther(ds[i..])
        {
          assert ds[i..][0] == ds[i] && ds[i..][1..] == ds[i + 1..];
          if !ds[i].Require? { return CircuitResult(ds[i], ds, false); }
        }
    }
    r := CircuitResult(decision, ds, false);
  }

  method CountAllows(ds: seq<Decision>) returns (n: nat)
    ensures n == Allows(ds)
  {
    n := 0;
    for i := 0 to |ds|
      invariant n == Allows(ds[..i])
    {
      assert ds[..i + 1][..i] == ds[..i];
      if ds[i].Allow? { n := n + 1; }
    }
    assert ds[..|ds|] == ds;
  }

  /** `evaluate_sequential`: stops at the first Deny, having evaluated nothing behind it. */
  method EvaluateSequential<V(==)>(c: Circuit<V>, ctx: Context<V>) returns (r: CircuitResult)
    requires c.mode.Sequential?
    ensures r.decision == LeafDecision(c, ctx)
    ensures Votes(c.bits, ctx, r.results) && Rules(c, ctx, r.decision)
    ensures |r.results| <= |c.bits| && r.results == Decisions(c.bits, ctx)[..|r.results|]
    ensures r.shortCircuited <==> Deny in Decisions(c.bits, ctx)
    ensures r.shortCircuited ==> r.results != [] && r.results[|r.results| - 1].Deny? && Deny !in r.results[..|r.results| - 1]
    ensures !r.shortCircuited ==> |r.results| == |c.bits|
  {
    hide Aggregate, Rules, Votes, Verdict;
    ghost var ds := Decisions(c.bits, ctx);
    LeafRules(c, ctx, LeafDecision(c, ctx));
    var results := [];
    for i := 0 to |c.bits|
      invariant results == ds[..i] && Deny !in results
    {
      var d := BitDecision(c.bits[i], ctx);
      results := results + [d];
      assert results == ds[..i + 1];
      if d.Deny? {
        assert ds[i] in ds;
        DecisionsAreVotes(c.bits, ctx, results);
        return CircuitResult(Deny, results, true);
      }
    }
    assert results == ds;
    DecisionsAreVotes(c.bits, ctx, results);
    r := AggregateResults(c.aggregator, results);
  }

  method EvaluateParallel<V(==)>(c: Circuit<V>, ctx: Context<V>) returns (r: CircuitResult)
    requires c.mode.Parallel?
    ensures r == CircuitResult(LeafDecision(c, ctx), Decisions(c.bits, ctx), false)
    ensures |r.results| == |c.bits| && Votes(c.bits, ctx, r.results) && Rules(c, ctx, r.decision)
  {
    hide Aggregate, Rules, Votes, Verdict;
    LeafRules(c, ctx, LeafDecision(c, ctx));
    var results := [];
    for i := 0 to |c.bits|
      invariant results == Decisions(c.bits, ctx)[..i]
    {
      results := results + [BitDecision(c.bits[i], ctx)];
    }
    assert results == Decisions(c.bits, ctx);
    DecisionsAreVotes(c.bits, ctx, results);
    r := AggregateResults(c.aggregator, results);
  }

  method Evaluate<V(==)>(c: Circuit<V>, ctx: Context<V>) returns (r: CircuitResult)
    ensures r.decision == Decide(c, ctx) && Rules(c, ctx, r.decision)
    decreases c, 1
  {
    hide Rules;
    DecideRules(c, ctx, Decide(c, ctx));
    match c.mode
    case Sequential => r := EvaluateSequential(c, ctx);
    case Parallel => r := EvaluateParallel(c, ctx);
    case Conditional(branches) => r := EvaluateConditional(c, branches, ctx);
  }

  method EvaluateConditional<V(==)>(c: Circuit<V>, branches: seq<Branch<V>>, ctx: Context<V>) returns (r: CircuitResult)
    requires c.mode == Conditional(branches)
    ensures r.decision == Decide(c, ctx) && Rules(c, ctx, r.decision)
    decreases c, 0
  {
    hide Rules;
    DecideRules(c, ctx, Decide(c, ctx));
    for i := 0 to |branches|
      invariant FirstMatch(branches, ctx) == i + FirstMatch(branches[i..], ctx)
    {
      assert branches[i..][0] == branches[i] && branches[i..][1..] == branches[i + 1..];
      if Eval(branches[i].condition, ctx) {
        r := Evaluate(branches[i].thenCircuit, ctx);
        return;
      }
    }
    if |branches| > 0 && branches[0].elseCircuit.Some? {
      r := Evaluate(branches[0].elseCircuit.value, ctx);
      return;
    }
    r := CircuitResult(Deny, [], false);
  }

  // ---------------------------------------------------------------- rewriting sequence to parallel

  /** `d` is `c` with some sequential nodes, at any depth, made parallel. */
  predicate Rewritten<V(==)>(c: Circuit<V>, d: Circuit<V>)
    decreases c
  {
    c.bits == d.bits && c.aggregator == d.aggregator &&
    match c.mode
    case Sequential => d.mode.Sequential? || d.mode.Parallel?
    case Parallel => d.mode.Parallel?
    case Conditional(bs) =>
      d.mode.Conditional? && |bs| == |d.mode.branches| &&
      forall i :: 0 <= i < |bs| ==>
        && bs[i].condition == d.mode.branches[i].condition
        && Rewritten(bs[i].thenCircuit, d.mode.branches[i].thenCircuit)
        && (bs[i].elseCircuit.Some? <==> d.mode.branches[i].elseCircuit.Some?)
        && (bs[i].elseCircuit.Some? ==> Rewritten(bs[i].elseCircuit.value, d.mode.branches[i].elseCircuit.value))
  }

  lemma {:induction false} SameMatch<V>(bs: seq<Branch<V>>, cs: seq<Branch<V>>, ctx: Context<V>)
    requires |bs| == |cs| && forall i :: 0 <= i < |bs| ==> bs[i].condition == cs[i].condition
    ensures FirstMatch(bs, ctx) == FirstMatch(cs, ctx)
  {
    if bs != [] {
      assert forall i :: 0 <= i < |bs[1..]| ==> bs[1..][i].condition == cs[1..][i].condition;
      SameMatch(bs[1..], cs[1..], ctx);
    }
  }

  /** A rewritten tree leads to the same leaf, rewritten or not. */
  lemma {:induction false} SameLeaf<V>(c: Circuit<V>, d: Circuit<V>, ctx: Context<V>)
    requires Rewritten(c, d)
    ensures Leaf(c, ctx).Some? <==> Leaf(d, ctx).Some?
    ensures Leaf(c, ctx).Some? ==> Rewritten(Leaf(c, ctx).value, Leaf(d, ctx).value)
    decreases c
  {
    if c.mode.Conditional? {
      var bs, cs := c.mode.branches, d.mode.branches;
      SameMatch(bs, cs, ctx);
      var i := FirstMatch(bs, ctx);
      if i < |bs| {
        SameLeaf(bs[i].thenCircuit, cs[i].thenCircuit, ctx);
      } else if bs != [] && bs[0].elseCircuit.Some? {
        SameLeaf(bs[0].elseCircuit.value, cs[0].elseCircuit.value, ctx);
      }
    }
  }

  /** The leaf in charge was made parallel, some bit of it denies, and its aggregator outvotes that. */
  ghost predicate Outvoted<V>(c: Circuit<V>, d: Circuit<V>, ctx: Context<V>) {
    && Leaf(c, ctx).Some? && Leaf(d, ctx).Some?
    && Leaf(c, ctx).value.mode.Sequential? && Leaf(d, ctx).value.mode.Parallel?
    && var ds := Decisions(Leaf(c, ctx).value.bits, ctx);
       Deny in ds && Aggregate(Leaf(c, ctx).value.aggregator, ds) != Deny
  }

  /** A rewriting changes a decision exactly when a denial is outvoted; what changes was a Deny. */
  lemma RewritingChangesExactly<V>(c: Circuit<V>, d: Circuit<V>, ctx: Context<V>)
    requires Rewritten(c, d)
    ensures Decide(c, ctx) != Decide(d, ctx) <==> Outvoted(c, d, ctx)
    ensures Decide(c, ctx) != Decide(d, ctx) ==> Decide(c, ctx) == Deny
  {
    hide Aggregate, Leaf;
    SameLeaf(c, d, ctx);
  }

  /** Every node of the tree aggregates with All. */
  predicate AllAll<V>(c: Circuit<V>)
    decreases c
  {
    c.aggregator.All? &&
    (c.mode.Conditional? ==>
       forall i :: 0 <= i < |c.mode.branches| ==>
         && AllAll(c.mode.branches[i].thenCircuit)
         && (c.mode.branches[i].elseCircuit.Some? ==> AllAll(c.mode.branches[i].elseCircuit.value)))
  }

  lemma {:induction false} LeafOfAllAll<V>(c: Circuit<V>, ctx: Context<V>)
    requires AllAll(c)
    ensures Leaf(c, ctx).Some? ==> Leaf(c, ctx).value.aggregator.All?
    decreases c
  {
    if c.mode.Conditional? {
      var bs := c.mode.branches;
      var i := FirstMatch(bs, ctx);
      if i < |bs| {
        LeafOfAllAll(bs[i].thenCircuit, ctx);
      } else if bs != [] && bs[0].elseCircuit.Some? {
        LeafOfAllAll(bs[0].elseCircuit.value, ctx);
      }
    }
  }

  /** With All everywhere no rewriting changes any decision. */
  lemma AllKeepsDecisions<V>(c: Circuit<V>, d: Circuit<V>, ctx: Context<V>)
    requires Rewritten(c, d) && AllAll(c)
    ensures Decide(c, ctx) == Decide(d, ctx)
  {
    RewritingChangesExactly(c, d, ctx);
    LeafOfAllAll(c, ctx);
  }

  /** The aggregator never outvotes a denial, whatever the bits say. */
  ghost predicate NeverOutvotes(agg: Aggregator) {
    forall ds: seq<Decision> :: Deny in ds ==> Aggregate(agg, ds) == Deny
  }

  function Ayes(k: nat): (r: seq<Decision>)
    ensures |r| == k && forall i :: 0 <= i < k ==> r[i] == Allow
  {
    seq(k, i => Allow)
  }

  lemma {:induction false} AllowsOfAyes(k: nat)
    ensures Allows(Ayes(k)) == k
  {
    if k > 0 {
      AllowsOfAyes(k - 1);
      assert Ayes(k)[..k - 1] == Ayes(k - 1);
    }
  }

  /** All is the only aggregator under which sequence and parallel agree on all votes. */
  lemma OnlyAllNeverOutvotes(agg: Aggregator)
    ensures NeverOutvotes(agg) <==> agg.All?
  {
    if !agg.All? {
      var k := if agg.KofN? then agg.k else 2;
      var ds := Ayes(k) + [Deny];
      assert ds[k] == Deny;
      assert ds[..k] == Ayes(k);
      AllowsOfAyes(k);
      assert Allows(ds) == k;
      if agg.Any? || agg.FirstDecisive? { assert ds[0] == Allow; }
      assert Aggregate(agg, ds) == Allow;
    }
  }

  /** A bit with a fixed decision. */
  function Fixed<V>(d: Decision): Bit<V> {
    Bit(Always(true), d, d)
  }

  function FixedBits<V>(ds: seq<Decision>): (r: seq<Bit<V>>)
    ensures |r| == |ds| && forall i :: 0 <= i < |ds| ==> r[i] == Fixed(ds[i])
  {
    seq(|ds|, i requires 0 <= i < |ds| => Fixed(ds[i]))
  }

  lemma FixedDecisions<V>(ds: seq<Decision>, ctx: Context<V>)
    ensures Decisions(FixedBits<V>(ds), ctx) == ds
  {
  }

  /** Making sequential circuits parallel is safe for every list of bits exactly when the aggregator is All. */
  lemma ParallelIsSafeExactlyForAll<V(!new)>(agg: Aggregator, ctx: Context<V>)
    ensures (forall bits: seq<Bit<V>> :: Decide(Circuit(bits, Sequential, agg), ctx) == Decide(Circuit(bits, Parallel, agg), ctx))
       <==> agg.All?
  {
    hide Aggregate;
    OnlyAllNeverOutvotes(agg);
    if !agg.All? {
      var ds :| Deny in ds && Aggregate(agg, ds) != Deny;
      FixedDecisions(ds, ctx);
      var bits: seq<Bit<V>> := FixedBits(ds);
      assert Decide(Circuit(bits, Sequential, agg), ctx) == Deny;
      assert Decide(Circuit(bits, Parallel, agg), ctx) == Aggregate(agg, ds);
    } else {
      forall bits: seq<Bit<V>> ensures Decide(Circuit(bits, Sequential, agg), ctx) == Decide(Circuit(bits, Parallel, agg), ctx) {
        assert Deny in Decisions(bits, ctx) ==> Aggregate(agg, Decisions(bits, ctx)) == Deny;
      }
    }
  }

  // ---------------------------------------------------------------- trees over all bits

  /** The tree with these bits at every node. */
  function WithBits<V>(c: Circuit<V>, bits: seq<Bit<V>>): (r: Circuit<V>)
    ensures r.bits == bits && r.aggregator == c.aggregator
    ensures r.mode.Sequential? == c.mode.Sequential? && r.mode.Parallel? == c.mode.Parallel?
    decreases c, 0
  {
    match c.mode
    case Sequential => c.(bits := bits)
    case Parallel => c.(bits := bits)
    case Conditional(bs) => Circuit(bits, Conditional(BranchesWithBits(bs, bits)), c.aggregator)
  }

  function BranchesWithBits<V>(bs: seq<Branch<V>>, bits: seq<Bit<V>>): (r: seq<Branch<V>>)
    ensures |r| == |bs|
    decreases bs, 0
  {
    if bs == [] then [] else [BranchWithBits(bs[0], bits)] + BranchesWithBits(bs[1..], bits)
  }

  function BranchWithBits<V>(b: Branch<V>, bits: seq<Bit<V>>): Branch<V>
    decreases b, 0
  {
    Branch(b.condition, WithBits(b.thenCircuit, bits),
           if b.elseCircuit.None? then None else Some(WithBits(b.elseCircuit.value, bits)))
  }

  /** The tree with every sequential node made parallel. */
  function AllParallel<V>(c: Circuit<V>): Circuit<V>
    decreases c, 0
  {
    match c.mode
    case Sequential => c.(mode := Parallel)
    case Parallel => c
    case Conditional(bs) => c.(mode := Conditional(BranchesParallel(bs)))
  }

  function BranchesParallel<V>(bs: seq<Branch<V>>): (r: seq<Branch<V>>)
    ensures |r| == |bs|
    decreases bs, 0
  {
    if bs == [] then [] else [BranchParallel(bs[0])] + BranchesParallel(bs[1..])
  }

  function BranchParallel<V>(b: Branch<V>): Branch<V>
    decreases b, 0
  {
    Branch(b.condition, AllParallel(b.thenCircuit),
           if b.elseCircuit.None? then None else Some(AllParallel(b.elseCircuit.value)))
  }

  lemma {:induction false} BranchesAt<V>(bs: seq<Branch<V>>, bits: seq<Bit<V>>, i: nat)
    requires i < |bs|
    ensures BranchesWithBits(bs, bits)[i] == BranchWithBits(bs[i], bits)
    ensures BranchesParallel(bs)[i] == BranchParallel(bs[i])
  {
    hide BranchWithBits, BranchParallel;
    if i > 0 { BranchesAt(bs[1..], bits, i - 1); }
  }

  lemma {:induction false} AllParallelRewrites<V>(c: Circuit<V>)
    ensures Rewritten(c, AllParallel(c))
    decreases c
  {
    if c.mode.Conditional? {
      var bs := c.mode.branches;
      forall i | 0 <= i < |bs|
        ensures var b, d := bs[i], BranchesParallel(bs)[i];
                && b.condition == d.condition && Rewritten(b.thenCircuit, d.thenCircuit)
                && (b.elseCircuit.Some? <==> d.elseCircuit.Some?)
                && (b.elseCircuit.Some? ==> Rewritten(b.elseCircuit.value, d.elseCircuit.value))
      {
        BranchesAt(bs, [], i);
        AllParallelRewrites(bs[i].thenCircuit);
        if bs[i].elseCircuit.Some? { AllParallelRewrites(bs[i].elseCircuit.value); }
      }
    }
  }

  /** Other bits do not change which leaf is in charge. */
  lemma {:induction false} LeafWithBits<V>(c: Circuit<V>, bits: seq<Bit<V>>, ctx: Context<V>)
    ensures Leaf(WithBits(c, bits), ctx) ==
            match Leaf(c, ctx) case None => None case Some(leaf) => Some(leaf.(bits := bits))
    decreases c
  {
    if c.mode.Conditional? {
      var bs := c.mode.branches;
      var cs := BranchesWithBits(bs, bits);
      forall i | 0 <= i < |bs| ensures cs[i] == BranchWithBits(bs[i], bits) { BranchesAt(bs, bits, i); }
      SameMatch(bs, cs, ctx);
      var i := FirstMatch(bs, ctx);
      if i < |bs| {
        LeafWithBits(bs[i].thenCircuit, bits, ctx);
      } else if bs != [] && bs[0].elseCircuit.Some? {
        LeafWithBits(bs[0].elseCircuit.value, bits, ctx);
      }
    }
  }

  lemma {:induction false} ParallelLeaf<V>(c: Circuit<V>, ctx: Context<V>)
    ensures Leaf(AllParallel(c), ctx) ==
            match Leaf(c, ctx) case None => None case Some(leaf) => Some(leaf.(mode := Parallel))
    decreases c
  {
    if c.mode.Conditional? {
      var bs := c.mode.branches;
      var cs := BranchesParallel(bs);
      forall i | 0 <= i < |bs| ensures cs[i] == BranchParallel(bs[i]) { BranchesAt(bs, [], i); }
      SameMatch(bs, cs, ctx);
      var i := FirstMatch(bs, ctx);
      if i < |bs| {
        ParallelLeaf(bs[i].thenCircuit, ctx);
      } else if bs != [] && bs[0].elseCircuit.Some? {
        ParallelLeaf(bs[0].elseCircuit.value, ctx);
      }
    }
  }

  /** Whatever the bits and the context, making the whole tree parallel keeps the decision. */
  ghost predicate SafeForAllBits<V(!new)>(c: Circuit<V>) {
    forall bits, ctx :: Decide(WithBits(c, bits), ctx) == Decide(AllParallel(WithBits(c, bits)), ctx)
  }

  /** Every sequential leaf that some context leads to aggregates with All. */
  ghost predicate ReachedAreAll<V(!new)>(c: Circuit<V>) {
    forall ctx :: Leaf(c, ctx).Some? && Leaf(c, ctx).value.mode.Sequential? ==> Leaf(c, ctx).value.aggregator.All?
  }

  /** For a tree of any shape the one is exactly the other. */
  lemma SafeForAllBitsExactly<V(!new)>(c: Circuit<V>)
    ensures SafeForAllBits(c) <==> ReachedAreAll(c)
  {
    hide Leaf, WithBits, AllParallel, Aggregate;
    if ReachedAreAll(c) {
      forall bits, ctx ensures Decide(WithBits(c, bits), ctx) == Decide(AllParallel(WithBits(c, bits)), ctx) {
        LeafWithBits(c, bits, ctx);
        ParallelLeaf(WithBits(c, bits), ctx);
        OnlyAllNeverOutvotes(All);
        assert Deny in Decisions(bits, ctx) ==> Aggregate(All, Decisions(bits, ctx)) == Deny;
      }
    } else {
      var ctx :| Leaf(c, ctx).Some? && Leaf(c, ctx).value.mode.Sequential? && !Leaf(c, ctx).value.aggregator.All?;
      var agg := Leaf(c, ctx).value.aggregator;
      OnlyAllNeverOutvotes(agg);
      var ds :| Deny in ds && Aggregate(agg, ds) != Deny;
      var bits: seq<Bit<V>> := FixedBits(ds);
      FixedDecisions(ds, ctx);
      LeafWithBits(c, bits, ctx);
      ParallelLeaf(WithBits(c, bits), ctx);
      assert Decide(WithBits(c, bits), ctx) == Deny;
      assert Decide(AllParallel(WithBits(c, bits)), ctx) == Aggregate(agg, ds);
    }
  }

  // ---------------------------------------------------------------- whole circuits depend on their inputs

  ghost function BitInputs<V>(bits: seq<Bit<V>>): set<string> {
    if bits == [] then {} else Inputs(bits[0].condition) + BitInputs(bits[1..])
  }

  /** The keys of every condition in the tree. */
  ghost function CircuitInputs<V>(c: Circuit<V>): set<string>
    decreases c, 0
  {
    BitInputs(c.bits) + if c.mode.Conditional? then BranchInputs(c.mode.branches) else {}
  }

  ghost function BranchInputs<V>(bs: seq<Branch<V>>): set<string>
    decreases bs, 0
  {
    if bs == [] then {}
    else InputsOfBranch(bs[0]) + BranchInputs(bs[1..])
  }

  ghost function InputsOfBranch<V>(b: Branch<V>): set<string>
    decreases b, 0
  {
    Inputs(b.condition) + CircuitInputs(b.thenCircuit)
    + if b.elseCircuit.Some? then CircuitInputs(b.elseCircuit.value) else {}
  }

  lemma {:induction false} BitInputsOf<V>(bits: seq<Bit<V>>, i: nat)
    requires i < |bits|
    ensures Inputs(bits[i].condition) <= BitInputs(bits)
  {
    if i > 0 { BitInputsOf(bits[1..], i - 1); }
  }

  lemma {:induction false} BranchInputsOf<V>(bs: seq<Branch<V>>, i: nat)
    requires i < |bs|
    ensures Inputs(bs[i].condition) + CircuitInputs(bs[i].thenCircuit) <= BranchInputs(bs)
    ensures bs[i].elseCircuit.Some? ==> CircuitInputs(bs[i].elseCircuit.value) <= BranchInputs(bs)
  {
    hide CircuitInputs;
    if i > 0 { BranchInputsOf(bs[1..], i - 1); }
  }

  lemma {:induction false} MatchDependsOnInputs<V(!new)>(bs: seq<Branch<V>>, a: Context<V>, b: Context<V>)
    requires Agree(a, b, BranchInputs(bs))
    ensures FirstMatch(bs, a) == FirstMatch(bs, b)
  {
    hide CircuitInputs;
    if bs != [] {
      AgreeOnFewer(a, b, BranchInputs(bs), Inputs(bs[0].condition));
      ConditionDependsOnInputs(bs[0].condition, a, b);
      AgreeOnFewer(a, b, BranchInputs(bs), BranchInputs(bs[1..]));
      MatchDependsOnInputs(bs[1..], a, b);
    }
  }

  lemma DecisionsDependOnInputs<V(!new)>(bits: seq<Bit<V>>, a: Context<V>, b: Context<V>)
    requires Agree(a, b, BitInputs(bits))
    ensures Decisions(bits, a) == Decisions(bits, b)
  {
    forall i | 0 <= i < |bits| ensures BitDecision(bits[i], a) == BitDecision(bits[i], b) {
      BitInputsOf(bits, i);
      AgreeOnFewer(a, b, BitInputs(bits), Inputs(bits[i].condition));
      ConditionDependsOnInputs(bits[i].condition, a, b);
    }
  }

  /** A circuit's decision depends on nothing but the keys its conditions report and the body size. */
  lemma {:induction false} CircuitDependsOnInputs<V(!new)>(c: Circuit<V>, a: Context<V>, b: Context<V>)
    requires Agree(a, b, CircuitInputs(c))
    ensures Decide(c, a) == Decide(c, b)
    decreases c
  {
    hide Aggregate, Agree;
    AgreeOnFewer(a, b, CircuitInputs(c), BitInputs(c.bits));
    DecisionsDependOnInputs(c.bits, a, b);
    if c.mode.Conditional? {
      var bs := c.mode.branches;
      AgreeOnFewer(a, b, CircuitInputs(c), BranchInputs(bs));
      MatchDependsOnInputs(bs, a, b);
      var i := FirstMatch(bs, a);
      if i < |bs| {
        BranchInputsOf(bs, i);
        AgreeOnFewer(a, b, BranchInputs(bs), CircuitInputs(bs[i].thenCircuit));
        CircuitDependsOnInputs(bs[i].thenCircuit, a, b);
      } else if bs != [] && bs[0].elseCircuit.Some? {
        BranchInputsOf(bs, 0);
        AgreeOnFewer(a, b, BranchInputs(bs), CircuitInputs(bs[0].elseCircuit.value));
        CircuitDependsOnInputs(bs[0].elseCircuit.value, a, b);
      }
    }
  }
}
