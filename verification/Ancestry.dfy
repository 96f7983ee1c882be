/** The ancestry walk of the policy loader: breadth-first over parent links, refusing any id met twice. */
module Ancestry {
  import opened Prelude

  type Cid = string

  /** What the walk reads: the parents of the stored chips, and which ids are genesis. */
  datatype Graph = Graph(parents: map<Cid, seq<Cid>>, genesis: Cid -> bool)

  /** The links that are followed out of an id: none out of genesis or out of a chip that is not stored. */
  function Out(g: Graph, c: Cid): seq<Cid> {
    if g.genesis(c) || c !in g.parents then [] else g.parents[c]
  }

  /** One link: the `index`th parent of a chip, or of the request itself. */
  datatype Arc = Arc(source: Option<Cid>, index: nat)

  function Links(g: Graph, request: seq<Cid>, source: Option<Cid>): seq<Cid> {
    match source
    case None => request
    case Some(c) => Out(g, c)
  }

  predicate IsArc(g: Graph, request: seq<Cid>, a: Arc) {
    a.index < |Links(g, request, a.source)|
  }

  function Target(g: Graph, request: seq<Cid>, a: Arc): Cid
    requires IsArc(g, request, a)
  {
    Links(g, request, a.source)[a.index]
  }

  // ---------------------------------------------------------------- reachability

  /** A chain of links from the request. */
  ghost predicate IsPath(g: Graph, request: seq<Cid>, path: seq<Cid>) {
    && path != [] && path[0] in request
    && forall i :: 0 <= i < |path| - 1 ==> path[i + 1] in Out(g, path[i])
  }

  ghost predicate Reachable(g: Graph, request: seq<Cid>, c: Cid) {
    exists path :: IsPath(g, request, path) && path[|path| - 1] == c
  }

  ghost predicate Live(g: Graph, request: seq<Cid>, a: Arc) {
    IsArc(g, request, a) && (a.source.None? || Reachable(g, request, a.source.value))
  }

  /** No id is reached by two links: what the walk demands. */
  ghost predicate NoSharing(g: Graph, request: seq<Cid>) {
    forall a, b :: Live(g, request, a) && Live(g, request, b) && Target(g, request, a) == Target(g, request, b) ==> a == b
  }

  lemma RequestIsReachable(g: Graph, request: seq<Cid>, c: Cid)
    requires c in request
    ensures Reachable(g, request, c)
  {
    assert IsPath(g, request, [c]);
  }

  lemma LinkIsReachable(g: Graph, request: seq<Cid>, c: Cid, d: Cid)
    requires Reachable(g, request, c) && d in Out(g, c)
    ensures Reachable(g, request, d)
  {
    var path :| IsPath(g, request, path) && path[|path| - 1] == c;
    assert IsPath(g, request, path + [d]);
  }

  /** A set that holds the request and is closed under links holds all that is reachable. */
  lemma {:induction false} ClosedHoldsPath(g: Graph, request: seq<Cid>, closed: seq<Cid>, path: seq<Cid>)
    requires (forall c :: c in request ==> c in closed) && (forall c, d :: c in closed && d in Out(g, c) ==> d in closed)
    requires IsPath(g, request, path)
    ensures path[|path| - 1] in closed
    decreases |path|
  {
    if |path| > 1 {
      var shorter := path[..|path| - 1];
      assert IsPath(g, request, shorter);
      ClosedHoldsPath(g, request, closed, shorter);
      assert path[|path| - 2 + 1] in Out(g, path[|path| - 2]);
    }
  }

  // ---------------------------------------------------------------- the links behind what was seen

  function ArcsOut(source: Option<Cid>, n: nat): (r: seq<Arc>)
    ensures |r| == n && forall i :: 0 <= i < n ==> r[i] == Arc(source, i)
  {
    seq(n, i requires 0 <= i < n => Arc(source, i))
  }

  /** The links of the request and of the ids seen, in the order in which they are queued. */
  function Arcs(g: Graph, request: seq<Cid>, seen: seq<Cid>): seq<Arc> {
    if seen == [] then ArcsOut(None, |request|)
    else
      var c := seen[|seen| - 1];
      Arcs(g, request, seen[..|seen| - 1]) + ArcsOut(Some(c), |Out(g, c)|)
  }

  ghost predicate AreArcs(g: Graph, request: seq<Cid>, arcs: seq<Arc>) {
    forall i :: 0 <= i < |arcs| ==> IsArc(g, request, arcs[i])
  }

  ghost function Targets(g: Graph, request: seq<Cid>, arcs: seq<Arc>): (r: seq<Cid>)
    requires AreArcs(g, request, arcs)
    ensures |r| == |arcs|
  {
    seq(|arcs|, i requires 0 <= i < |arcs| => Target(g, request, arcs[i]))
  }

  ghost predicate Distinct<T>(s: seq<T>) {
    forall i, j :: 0 <= i < j < |s| ==> s[i] != s[j]
  }

  lemma {:induction false} ArcsProperties(g: Graph, request: seq<Cid>, seen: seq<Cid>)
    requires Distinct(seen)
    ensures AreArcs(g, request, Arcs(g, request, seen)) && Distinct(Arcs(g, request, seen))
    ensures forall a :: a in Arcs(g, request, seen) <==>
              IsArc(g, request, a) && (a.source.None? || a.source.value in seen)
  {
    hide Out;
    var arcs := Arcs(g, request, seen);
    if seen == [] {
      forall a | IsArc(g, request, a) && a.source.None? ensures a in arcs { assert arcs[a.index] == a; }
    } else {
      var before, c := seen[..|seen| - 1], seen[|seen| - 1];
      ArcsProperties(g, request, before);
      var more := ArcsOut(Some(c), |Out(g, c)|);
      assert seen == before + [c] && c !in before;
      forall a ensures a in more <==> IsArc(g, request, a) && a.source == Some(c) {
        if IsArc(g, request, a) && a.source == Some(c) { assert more[a.index] == a; }
      }
      DistinctJoin(Arcs(g, request, before), more);
    }
  }

  lemma DistinctJoin<T>(s: seq<T>, t: seq<T>)
    requires Distinct(s) && Distinct(t) && forall x :: x in s ==> x !in t
    ensures Distinct(s + t)
  {
    forall i, j | 0 <= i < j < |s + t| ensures (s + t)[i] != (s + t)[j] {
      if i < |s| <= j { assert s[i] in s && t[j - |s|] in t; }
    }
  }

  // ---------------------------------------------------------------- the state of the walk

  /** `seen` was visited in this order, `queue` waits; together they are the targets of all links met. */
  ghost predicate Walk(g: Graph, request: seq<Cid>, seen: seq<Cid>, queue: seq<Cid>) {
    && Distinct(seen)
    && AreArcs(g, request, Arcs(g, request, seen))
    && Targets(g, request, Arcs(g, request, seen)) == seen + queue
    && (forall c :: c in seen || c in queue ==> Reachable(g, request, c))
    && (forall i :: 0 <= i < |seen| ==> i < |Arcs(g, request, seen[..i])|)
  }

  lemma WalkStarts(g: Graph, request: seq<Cid>)
    ensures Walk(g, request, [], request)
  {
    hide Reachable;
    assert Targets(g, request, Arcs(g, request, [])) == request;
    assert [] + request == request;
    forall c | c in request ensures Reachable(g, request, c) { RequestIsReachable(g, request, c); }
  }

  lemma WalkSteps(g: Graph, request: seq<Cid>, seen: seq<Cid>, queue: seq<Cid>)
    requires Walk(g, request, seen, queue) && queue != [] && queue[0] !in seen
    ensures Walk(g, request, seen + [queue[0]], queue[1..] + Out(g, queue[0]))
  {
    hide Reachable, Out, Arcs, Targets, AreArcs;
    var c := queue[0];
    var seen', queue' := seen + [c], queue[1..] + Out(g, c);
    TargetsGrow(g, request, seen, c);
    assert seen + queue + Out(g, c) == seen' + queue';
    forall d | d in seen' || d in queue' ensures Reachable(g, request, d) {
      if d in Out(g, c) { LinkIsReachable(g, request, c, d); }
    }
    assert |seen + queue| == |Arcs(g, request, seen)|;
    assert seen'[..|seen|] == seen;
    forall i | 0 <= i < |seen'| ensures i < |Arcs(g, request, seen'[..i])| {
      if i < |seen| { assert seen'[..i] == seen[..i]; }
    }
  }

  lemma TargetsGrow(g: Graph, request: seq<Cid>, seen: seq<Cid>, c: Cid)
    requires Distinct(seen + [c])
    ensures var arcs, arcs' := Arcs(g, request, seen), Arcs(g, request, seen + [c]);
            && AreArcs(g, request, arcs) && AreArcs(g, request, arcs')
            && Targets(g, request, arcs') == Targets(g, request, arcs) + Out(g, c)
  {
    hide Out;
    assert (seen + [c])[..|seen|] == seen;
    assert Distinct(seen) by { DistinctPrefix(seen, c); }
    ArcsProperties(g, request, seen);
    ArcsProperties(g, request, seen + [c]);
  }

  lemma DistinctPrefix(seen: seq<Cid>, c: Cid)
    requires Distinct(seen + [c])
    ensures Distinct(seen)
  {
    forall i, j | 0 <= i < j < |seen| ensures seen[i] != seen[j] {
      assert (seen + [c])[i] == seen[i] && (seen + [c])[j] == seen[j];
    }
  }

  lemma Position<T>(s: seq<T>, x: T) returns (i: nat)
    requires x in s
    ensures i < |s| && s[i] == x
  {
    i :| 0 <= i < |s| && s[i] == x;
  }

  lemma MetAgain(g: Graph, request: seq<Cid>, seen: seq<Cid>, queue: seq<Cid>)
    requires Walk(g, request, seen, queue) && queue != [] && queue[0] in seen
    ensures !NoSharing(g, request)
    ensures SharedBy(g, request, queue[0])
  {
    hide Reachable, Out;
    var arcs := Arcs(g, request, seen);
    ArcsProperties(g, request, seen);
    var i := Position(seen, queue[0]);
    var j := |seen|;
    assert (seen + queue)[i] == queue[0] == (seen + queue)[j];
    assert arcs[i] in arcs && arcs[j] in arcs && arcs[i] != arcs[j];
    assert Live(g, request, arcs[i]) && Live(g, request, arcs[j]);
    assert Targets(g, request, arcs)[i] == Target(g, request, arcs[i]);
    assert Targets(g, request, arcs)[j] == Target(g, request, arcs[j]);
  }

  /** Two different links that the walk follows lead to this id. */
  ghost predicate SharedBy(g: Graph, request: seq<Cid>, c: Cid) {
    exists a, b :: Live(g, request, a) && Live(g, request, b) && a != b && Target(g, request, a) == c == Target(g, request, b)
  }

  lemma WalkEnds(g: Graph, request: seq<Cid>, seen: seq<Cid>)
    requires Walk(g, request, seen, [])
    ensures forall c :: c in seen <==> Reachable(g, request, c)
    ensures NoSharing(g, request)
  {
    hide Out, Reachable, Target;
    forall c | Reachable(g, request, c) ensures c in seen { SeenHoldsReachable(g, request, seen, c); }
    forall a, b | Live(g, request, a) && Live(g, request, b) && Target(g, request, a) == Target(g, request, b) ensures a == b {
      SeenArcsDiffer(g, request, seen, a, b);
    }
  }

  lemma SeenHoldsReachable(g: Graph, request: seq<Cid>, seen: seq<Cid>, c: Cid)
    requires Walk(g, request, seen, []) && Reachable(g, request, c)
    ensures c in seen
  {
    hide Out, Walk;
    forall c | c in request ensures c in seen {
      var i := Position(request, c);
      ArcTargetSeen(g, request, seen, Arc(None, i));
    }
    forall c, d | c in seen && d in Out(g, c) ensures d in seen {
      var i := Position(Out(g, c), d);
      ArcTargetSeen(g, request, seen, Arc(Some(c), i));
    }
    var path :| IsPath(g, request, path) && path[|path| - 1] == c;
    ClosedHoldsPath(g, request, seen, path);
  }

  lemma SeenArcsDiffer(g: Graph, request: seq<Cid>, seen: seq<Cid>, a: Arc, b: Arc)
    requires Walk(g, request, seen, []) && IsArc(g, request, a) && IsArc(g, request, b)
    requires (a.source.None? || a.source.value in seen) && (b.source.None? || b.source.value in seen)
    requires Target(g, request, a) == Target(g, request, b)
    ensures a == b
  {
    hide Out, Reachable, Target, IsArc;
    var arcs := Arcs(g, request, seen);
    ArcsProperties(g, request, seen);
    var i := Position(arcs, a);
    var j := Position(arcs, b);
    assert seen + [] == seen;
    assert Targets(g, request, arcs)[i] == Target(g, request, a) && Targets(g, request, arcs)[j] == Target(g, request, b);
  }

  lemma ArcTargetSeen(g: Graph, request: seq<Cid>, seen: seq<Cid>, a: Arc)
    requires Walk(g, request, seen, []) && IsArc(g, request, a) && (a.source.None? || a.source.value in seen)
    ensures Target(g, request, a) in seen
  {
    hide Reachable, Out, Target, IsArc;
    ArcsProperties(g, request, seen);
    var arcs := Arcs(g, request, seen);
    var i := Position(arcs, a);
    assert seen + [] == seen;
    assert Targets(g, request, arcs)[i] == Target(g, request, a);
  }

  lemma {:induction false} ArcsExtend(g: Graph, request: seq<Cid>, seen: seq<Cid>, n: nat)
    requires n <= |seen|
    ensures |Arcs(g, request, seen[..n])| <= |Arcs(g, request, seen)|
    ensures Arcs(g, request, seen)[..|Arcs(g, request, seen[..n])|] == Arcs(g, request, seen[..n])
    decreases |seen|
  {
    hide Out;
    if n == |seen| {
      assert seen[..n] == seen;
    } else {
      var before := seen[..|seen| - 1];
      ArcsExtend(g, request, before, n);
      assert before[..n] == seen[..n];
    }
  }

  /** What is linked from an id is visited after it. */
  lemma ParentsComeLater(g: Graph, request: seq<Cid>, seen: seq<Cid>, i: nat, j: nat)
    requires Walk(g, request, seen, []) && i < |seen| && j < |seen| && seen[j] in Out(g, seen[i])
    ensures i < j
  {
    hide Reachable, Out;
    var arcs := Arcs(g, request, seen);
    var k := Position(Out(g, seen[i]), seen[j]);
    var x := |Arcs(g, request, seen[..i])| + k;
    assert seen[..i + 1][..i] == seen[..i] && seen[..i + 1][i] == seen[i];
    assert Arcs(g, request, seen[..i + 1]) == Arcs(g, request, seen[..i]) + ArcsOut(Some(seen[i]), |Out(g, seen[i])|);
    ArcsExtend(g, request, seen, i + 1);
    assert Arcs(g, request, seen[..i + 1])[x] == Arc(Some(seen[i]), k);
    assert arcs[x] == arcs[..|Arcs(g, request, seen[..i + 1])|][x] == Arc(Some(seen[i]), k);
    assert seen + [] == seen;
    assert seen[x] == Targets(g, request, arcs)[x] == Target(g, request, arcs[x]) == seen[j];
  }

  // ---------------------------------------------------------------- the walk

  datatype Outcome = Ancestors(cids: seq<Cid>) | CircularDependency(cid: Cid)

  /** What the visited ids become: genesis left out, most general first. */
  function Result(g: Graph, seen: seq<Cid>): seq<Cid> {
    if seen == [] then []
    else
      var c := seen[|seen| - 1];
      (if g.genesis(c) then [] else [c]) + Result(g, seen[..|seen| - 1])
  }

  lemma {:induction false} ResultMembers(g: Graph, seen: seq<Cid>)
    ensures forall c :: c in Result(g, seen) <==> c in seen && !g.genesis(c)
  {
    if seen != [] {
      ResultMembers(g, seen[..|seen| - 1]);
      assert seen == seen[..|seen| - 1] + [seen[|seen| - 1]];
    }
  }

  lemma {:induction false} ResultReverses(g: Graph, seen: seq<Cid>, i: nat, j: nat)
    requires i < j < |Result(g, seen)|
    ensures Before(seen, Result(g, seen)[j], Result(g, seen)[i])
    decreases |seen|
  {
    hide Before;
    var c, before := seen[|seen| - 1], seen[..|seen| - 1];
    var r, tail := Result(g, seen), Result(g, before);
    var shift := |r| - |tail|;
    assert r[j] == tail[j - shift];
    assert seen == before + [c];
    if i < shift {
      ResultMembers(g, before);
      assert tail[j - shift] in tail;
      var x := Position(before, r[j]);
      BeforeAt(seen, x, |before|);
    } else {
      ResultReverses(g, before, i - shift, j - shift);
      BeforeInLonger(before, c, tail[j - shift], tail[i - shift]);
    }
  }

  lemma BeforeInLonger(s: seq<Cid>, c: Cid, a: Cid, b: Cid)
    requires Before(s, a, b)
    ensures Before(s + [c], a, b)
  {
    var i, j :| 0 <= i < j < |s| && s[i] == a && s[j] == b;
    BeforeAt(s + [c], i, j);
  }

  lemma BeforeAt(s: seq<Cid>, i: nat, j: nat)
    requires i < j < |s|
    ensures Before(s, s[i], s[j])
  {
  }

  lemma BeforeIsPosition(s: seq<Cid>, i: nat, j: nat)
    requires Distinct(s) && i < |s| && j < |s|
    ensures Before(s, s[i], s[j]) <==> i < j
  {
    if Before(s, s[i], s[j]) {
      var x, y :| 0 <= x < y < |s| && s[x] == s[i] && s[y] == s[j];
      assert x == i && y == j;
    }
  }

  lemma ResultProperties(g: Graph, seen: seq<Cid>)
    requires Distinct(seen)
    ensures var r := Result(g, seen);
            && Distinct(r)
            && (forall c :: c in r <==> c in seen && !g.genesis(c))
            && (forall i, j :: 0 <= i < j < |r| ==> Before(seen, r[j], r[i]))
  {
    hide Result;
    ResultMembers(g, seen);
    var r := Result(g, seen);
    forall i, j | 0 <= i < j < |r| ensures r[i] != r[j] && Before(seen, r[j], r[i]) {
      ResultReverses(g, seen, i, j);
      var x, y :| 0 <= x < y < |seen| && seen[x] == r[j] && seen[y] == r[i];
    }
  }

  ghost predicate Before(s: seq<Cid>, a: Cid, b: Cid) {
    exists i, j :: 0 <= i < j < |s| && s[i] == a && s[j] == b
  }

  lemma ResultOrder(g: Graph, request: seq<Cid>, seen: seq<Cid>, i: nat, j: nat)
    requires Walk(g, request, seen, [])
    requires i < |Result(g, seen)| && j < |Result(g, seen)| && Result(g, seen)[j] in Out(g, Result(g, seen)[i])
    ensures j < i
  {
    hide Reachable, Out, Result;
    var r := Result(g, seen);
    ResultProperties(g, seen);
    assert r[i] in r && r[j] in r;
    var x := Position(seen, r[i]);
    var y := Position(seen, r[j]);
    if i < j { BeforeIsPosition(seen, y, x); }
    ParentsComeLater(g, request, seen, x, y);
  }

  /** Every id the walk can meet. */
  function Universe(g: Graph, request: seq<Cid>): set<Cid> {
    (set c | c in request) + set k, c | k in g.parents && c in g.parents[k] :: c
  }

  lemma QueueInUniverse(g: Graph, request: seq<Cid>, c: Cid)
    requires Reachable(g, request, c)
    ensures c in Universe(g, request)
  {
    var path :| IsPath(g, request, path) && path[|path| - 1] == c;
    if |path| > 1 { assert path[|path| - 2 + 1] in Out(g, path[|path| - 2]); }
  }

  /**
    `resolve_ancestry`. It ends on every store, cyclic or not. It succeeds exactly when no id is reached by
    two links, genesis included, and then lists the reachable ids other than genesis, each once and every
    parent in front of its children.
   */
  method ResolveAncestry(g: Graph, request: seq<Cid>) returns (r: Outcome)
    ensures r.Ancestors? <==> NoSharing(g, request)
    ensures r.Ancestors? ==> Distinct(r.cids)
    ensures r.Ancestors? ==> forall c :: c in r.cids <==> Reachable(g, request, c) && !g.genesis(c)
    ensures r.Ancestors? ==> forall i, j :: 0 <= i < |r.cids| && 0 <= j < |r.cids| && r.cids[j] in Out(g, r.cids[i]) ==> j < i
    ensures r.CircularDependency? ==> SharedBy(g, request, r.cid)
  {
    hide *;
    var ancestry: seq<Cid> := [];
    var visited: set<Cid> := {};
    var current := request;
    ghost var seen: seq<Cid> := [];
    WalkStarts(g, request);
    NoResult(g);
    while current != []
      invariant Walk(g, request, seen, current)
      invariant forall c :: c in visited <==> c in seen
      invariant ancestry == Reverse(Result(g, seen)) && visited <= Universe(g, request)
      decreases |Universe(g, request) - visited|
    {
      var next: seq<Cid> := [];
      ghost var start := visited;
      assert current[0..] + next == current;
      for i := 0 to |current|
        invariant Walk(g, request, seen, current[i..] + next)
        invariant forall c :: c in visited <==> c in seen
        invariant ancestry == Reverse(Result(g, seen)) && visited <= Universe(g, request)
        invariant start <= visited && (i > 0 ==> current[0] in visited && current[0] !in start)
      {
        var c := current[i];
        ghost var queue := current[i..] + next;
        assert queue[0] == c && queue[1..] == current[i + 1..] + next;
        if c in visited {
          MetAgain(g, request, seen, queue);
          return CircularDependency(c);
        }
        QueueHeadKnown(g, request, seen, queue);
        WalkSteps(g, request, seen, queue);
        assert queue[1..] + Out(g, c) == current[i + 1..] + (next + Out(g, c));
        ghost var nextAfter := next + Out(g, c);
        OutCases(g, c);
        assert (seen + [c])[..|seen|] == seen;
        visited := visited + {c};
        ResultStep(g, seen, c);
        seen := seen + [c];
        if !g.genesis(c) {
          ancestry := ancestry + [c];
          if c in g.parents { next := next + g.parents[c]; }
        }
        assert next == nextAfter;
      }
      assert current[|current|..] + next == next;
      Shrinks(Universe(g, request), start, visited, current[0]);
      current := next;
    }
    WalkEnds(g, request, seen);
    WalkIsDistinct(g, request, seen, []);
    ResultProperties(g, seen);
    ReverseTwice(Result(g, seen));
    r := Ancestors(Reverse(ancestry));
    forall i, j | 0 <= i < |r.cids| && 0 <= j < |r.cids| && r.cids[j] in Out(g, r.cids[i]) ensures j < i {
      ResultOrder(g, request, seen, i, j);
    }
  }

  function Reverse<T>(s: seq<T>): (r: seq<T>)
    ensures |r| == |s| && forall i :: 0 <= i < |s| ==> r[i] == s[|s| - 1 - i]
  {
    seq(|s|, i requires 0 <= i < |s| => s[|s| - 1 - i])
  }

  lemma ReverseTwice<T>(s: seq<T>)
    ensures Reverse(Reverse(s)) == s
  {
  }

  lemma NoResult(g: Graph)
    ensures Result(g, []) == []
  {
  }

  lemma ResultStep(g: Graph, seen: seq<Cid>, c: Cid)
    ensures Reverse(Result(g, seen + [c])) == Reverse(Result(g, seen)) + if g.genesis(c) then [] else [c]
  {
    assert (seen + [c])[..|seen|] == seen;
  }

  lemma QueueHeadKnown(g: Graph, request: seq<Cid>, seen: seq<Cid>, queue: seq<Cid>)
    requires Walk(g, request, seen, queue) && queue != []
    ensures queue[0] in Universe(g, request)
  {
    hide Universe, Reachable;
    assert queue[0] in queue;
    QueueInUniverse(g, request, queue[0]);
  }

  lemma OutCases(g: Graph, c: Cid)
    ensures Out(g, c) == if g.genesis(c) || c !in g.parents then [] else g.parents[c]
  {
  }

  lemma WalkIsDistinct(g: Graph, request: seq<Cid>, seen: seq<Cid>, queue: seq<Cid>)
    requires Walk(g, request, seen, queue)
    ensures Distinct(seen)
  {
  }

  lemma Shrinks(universe: set<Cid>, before: set<Cid>, after: set<Cid>, c: Cid)
    requires before <= after <= universe && c in after && c !in before
    ensures |universe - after| < |universe - before|
  {
    SmallerSet(universe - after, universe - before, c);
  }

  lemma SmallerSet(a: set<Cid>, b: set<Cid>, c: Cid)
    requires a <= b && c in b && c !in a
    ensures |a| < |b|
  {
    assert b == a + (b - a) && |b - a| > 0 by { assert c in b - a; }
  }

  /** Two parents with one grandparent are refused although nothing is circular; so is genesis met twice. */
  lemma DiamondIsRefused(g: Graph, p: Cid, q: Cid, top: Cid)
    requires p != q && Out(g, p) == [top] && Out(g, q) == [top]
    ensures !NoSharing(g, [p, q])
  {
    RequestIsReachable(g, [p, q], p);
    RequestIsReachable(g, [p, q], q);
    var a, b := Arc(Some(p), 0), Arc(Some(q), 0);
    assert Live(g, [p, q], a) && Live(g, [p, q], b);
    assert Target(g, [p, q], a) == Target(g, [p, q], b);
  }
}
