/** The sliding-window rate limiter: timestamps per key, pruned when they leave the window. */
module RateLimit {

  type Key = string

  datatype Config = Config(max: nat, window: nat)

  /** With a limit of zero the code indexes an empty vector. */
  datatype Outcome = Allowed(remaining: nat) | Limited(retryAfter: int) | Panics

  /** The timestamps after the cutoff. */
  function Recent(ts: seq<int>, cutoff: int): (r: seq<int>)
    ensures |r| <= |ts|
  {
    if ts == [] then []
    else
      var last := ts[|ts| - 1];
      Recent(ts[..|ts| - 1], cutoff) + if last > cutoff then [last] else []
  }

  /** The answer that these admissions call for. */
  function Answer(ts: seq<int>, now: int, cfg: Config): Outcome {
    var live := Recent(ts, now - cfg.window);
    if |live| < cfg.max then Allowed(cfg.max - |live| - 1)
    else if live == [] then Panics
    else Limited(cfg.window - (now - live[0]))
  }

  /** `check_and_record`: what is kept of an entry. */
  function Recorded(ts: seq<int>, now: int, cfg: Config): seq<int> {
    var live := Recent(ts, now - cfg.window);
    if Answer(ts, now, cfg).Allowed? then live + [now] else live
  }

  type Entries = map<Key, seq<int>>

  function EntryOf(es: Entries, key: Key): seq<int> {
    if key in es then es[key] else []
  }

  function Pruned(es: Entries, cutoff: int): Entries {
    map k | k in es && Recent(es[k], cutoff) != [] :: Recent(es[k], cutoff)
  }

  // ---------------------------------------------------------------- runs

  datatype Op = Check(key: Key, now: int) | Prune(now: int)

  function Step(es: Entries, op: Op, cfg: Config): Entries {
    match op
    case Check(key, now) => es[key := Recorded(EntryOf(es, key), now, cfg)]
    case Prune(now) => Pruned(es, now - cfg.window)
  }

  function Run(ops: seq<Op>, cfg: Config): Entries {
    if ops == [] then map[] else Step(Run(ops[..|ops| - 1], cfg), ops[|ops| - 1], cfg)
  }

  /** What a check after these operations is told. */
  function Told(ops: seq<Op>, key: Key, now: int, cfg: Config): Outcome {
    Answer(EntryOf(Run(ops, cfg), key), now, cfg)
  }

  /** When the key was ever admitted. */
  function Admissions(ops: seq<Op>, key: Key, cfg: Config): seq<int> {
    if ops == [] then []
    else
      var before, last := ops[..|ops| - 1], ops[|ops| - 1];
      if last.Check? && last.key == key && Told(before, key, last.now, cfg).Allowed?
      then Admissions(before, key, cfg) + [last.now]
      else Admissions(before, key, cfg)
  }

  /** The clock does not go back, and has not passed `now`. */
  ghost predicate Clocked(ops: seq<Op>, now: int) {
    && (forall i :: 0 <= i < |ops| ==> ops[i].now <= now)
    && (forall i, j :: 0 <= i <= j < |ops| ==> ops[i].now <= ops[j].now)
  }

  ghost predicate Ordered(ts: seq<int>, now: int) {
    && (forall i :: 0 <= i < |ts| ==> ts[i] <= now)
    && (forall i, j :: 0 <= i <= j < |ts| ==> ts[i] <= ts[j])
  }

  // ---------------------------------------------------------------- recent timestamps

  lemma {:induction false} RecentTwice(ts: seq<int>, c: int, d: int)
    requires c <= d
    ensures Recent(Recent(ts, c), d) == Recent(ts, d)
  {
    if ts == [] {
      NoneRecent(c);
      NoneRecent(d);
    }
    hide Recent;
    if ts != [] {
      var before, last := ts[..|ts| - 1], ts[|ts| - 1];
      RecentTwice(before, c, d);
      RecentSnoc(Recent(before, c), last, d);
      assert ts == before + [last];
      RecentSnoc(before, last, c);
      RecentSnoc(before, last, d);
      assert last <= c ==> Recent(ts, c) == Recent(before, c);
    }
  }

  lemma RecentSnoc(ts: seq<int>, t: int, c: int)
    ensures Recent(ts + [t], c) == Recent(ts, c) + if t > c then [t] else []
  {
    assert (ts + [t])[..|ts|] == ts;
  }

  lemma {:induction false} RecentOrdered(ts: seq<int>, c: int, now: int)
    requires Ordered(ts, now)
    ensures Ordered(Recent(ts, c), now) && forall i :: 0 <= i < |Recent(ts, c)| ==> Recent(ts, c)[i] > c
  {
    if ts != [] {
      var last := ts[|ts| - 1];
      assert Ordered(ts[..|ts| - 1], last);
      RecentOrdered(ts[..|ts| - 1], c, last);
    }
  }

  /** Of ordered timestamps a later cutoff keeps all exactly when it is before the oldest one kept. */
  lemma {:induction false} LaterCutoff(ts: seq<int>, c: int, d: int, now: int)
    requires Ordered(ts, now) && c <= d && Recent(ts, c) != []
    ensures |Recent(ts, d)| <= |Recent(ts, c)|
    ensures |Recent(ts, d)| == |Recent(ts, c)| <==> d < Recent(ts, c)[0]
  {
    RecentTwice(ts, c, d);
    RecentOrdered(ts, c, now);
    AllRecent(Recent(ts, c), d, now);
  }

  lemma {:induction false} AllRecent(ts: seq<int>, d: int, now: int)
    requires Ordered(ts, now) && ts != []
    ensures |Recent(ts, d)| == |ts| <==> d < ts[0]
  {
    var before := ts[..|ts| - 1];
    if before != [] {
      assert Ordered(before, now);
      AllRecent(before, d, now);
      assert before[0] == ts[0] <= ts[|ts| - 1];
    }
  }

  // ---------------------------------------------------------------- the limiter answers from the whole history

  lemma {:induction false} AdmissionsOrdered(ops: seq<Op>, key: Key, cfg: Config, now: int)
    requires Clocked(ops, now)
    ensures Ordered(Admissions(ops, key, cfg), now)
  {
    if ops != [] {
      var before, last := ops[..|ops| - 1], ops[|ops| - 1];
      assert Clocked(before, last.now);
      AdmissionsOrdered(before, key, cfg, last.now);
    }
  }

  /** From the last operation on, a stored entry and the full history have the same recent timestamps. */
  lemma {:induction false} EntryHoldsRecent(ops: seq<Op>, key: Key, cfg: Config, now: int)
    requires Clocked(ops, now)
    ensures Recent(EntryOf(Run(ops, cfg), key), now - cfg.window) == Recent(Admissions(ops, key, cfg), now - cfg.window)
  {
    hide Answer, Recent;
    if ops != [] {
      var before, last := ops[..|ops| - 1], ops[|ops| - 1];
      assert Clocked(before, last.now) && Clocked(before, now);
      EntryHoldsRecent(before, key, cfg, now);
      var es := Run(before, cfg);
      var c, d := last.now - cfg.window, now - cfg.window;
      RecentTwice(EntryOf(es, key), c, d);
      match last
      case Check(k, t) =>
        if k == key {
          RecentSnoc(Recent(EntryOf(es, key), c), t, d);
          RecentSnoc(Admissions(before, key, cfg), t, d);
        }
      case Prune(_) =>
        NoneRecent(d);
        PrunedEntry(es, c, key);
    }
  }

  lemma NoneRecent(c: int)
    ensures Recent([], c) == []
  {
  }

  lemma PrunedEntry(es: Entries, c: int, key: Key)
    ensures EntryOf(Pruned(es, c), key) == Recent(EntryOf(es, key), c)
  {
    NoneRecent(c);
  }

  /** Every answer is the one that the key's admissions call for: pruning and forgetting never show. */
  lemma AnswersFromHistory(ops: seq<Op>, key: Key, cfg: Config, now: int)
    requires Clocked(ops, now)
    ensures Told(ops, key, now, cfg) == Answer(Admissions(ops, key, cfg), now, cfg)
  {
    hide Recent, Run, Admissions, Clocked, EntryOf;
    EntryHoldsRecent(ops, key, cfg, now);
  }

  function WithoutPrunes(ops: seq<Op>): seq<Op> {
    if ops == [] then []
    else WithoutPrunes(ops[..|ops| - 1]) + if ops[|ops| - 1].Prune? then [] else [ops[|ops| - 1]]
  }

  lemma {:induction false} WithoutPrunesClocked(ops: seq<Op>, now: int)
    requires Clocked(ops, now)
    ensures Clocked(WithoutPrunes(ops), now)
  {
    if ops != [] {
      var before, last := ops[..|ops| - 1], ops[|ops| - 1];
      assert Clocked(before, last.now);
      WithoutPrunesClocked(before, last.now);
    }
  }

  lemma {:induction false} SameAdmissions(ops: seq<Op>, key: Key, cfg: Config, now: int)
    requires Clocked(ops, now)
    ensures Admissions(WithoutPrunes(ops), key, cfg) == Admissions(ops, key, cfg)
  {
    hide Answer, Told, Clocked;
    if ops != [] {
      var before, last := ops[..|ops| - 1], ops[|ops| - 1];
      var kept := WithoutPrunes(before);
      ClockedPrefix(ops, now);
      SameAdmissions(before, key, cfg, last.now);
      if last.Check? {
        assert WithoutPrunes(ops) == kept + [last] && (kept + [last])[..|kept|] == kept;
        WithoutPrunesClocked(before, last.now);
        SameAdmissions(before, last.key, cfg, last.now);
        AnswersFromHistory(before, last.key, cfg, last.now);
        AnswersFromHistory(kept, last.key, cfg, last.now);
      } else {
        assert WithoutPrunes(ops) == kept;
      }
    }
  }

  lemma ClockedPrefix(ops: seq<Op>, now: int)
    requires Clocked(ops, now) && ops != []
    ensures Clocked(ops[..|ops| - 1], ops[|ops| - 1].now)
  {
  }

  /** Pruning at arbitrary points never changes a later answer. */
  lemma PruningChangesNoAnswer(ops: seq<Op>, key: Key, cfg: Config, now: int)
    requires Clocked(ops, now)
    ensures Told(ops, key, now, cfg) == Told(WithoutPrunes(ops), key, now, cfg)
  {
    hide Answer, Told, Clocked;
    SameAdmissions(ops, key, cfg, now);
    WithoutPrunesClocked(ops, now);
    AnswersFromHistory(ops, key, cfg, now);
    AnswersFromHistory(WithoutPrunes(ops), key, cfg, now);
  }

  // ---------------------------------------------------------------- the bound

  /** How many of the timestamps lie in the window that ends at `t`. */
  function InWindow(ts: seq<int>, t: int, window: nat): nat {
    if ts == [] then 0
    else InWindow(ts[..|ts| - 1], t, window) + if t - window < ts[|ts| - 1] <= t then 1 else 0
  }

  lemma {:induction false} WindowWithinRecent(ts: seq<int>, t: int, window: nat, cutoff: int)
    requires cutoff <= t - window
    ensures InWindow(ts, t, window) <= |Recent(ts, cutoff)|
  {
    if ts != [] { WindowWithinRecent(ts[..|ts| - 1], t, window, cutoff); }
  }

  /** No window of the configured length, wherever it lies, holds more than the permitted number of admissions. */
  lemma {:induction false} AtMostMaxPerWindow(ops: seq<Op>, key: Key, cfg: Config, now: int, t: int)
    requires Clocked(ops, now)
    ensures InWindow(Admissions(ops, key, cfg), t, cfg.window) <= cfg.max
  {
    hide Told, Clocked, Recent;
    if ops != [] {
      var before, last := ops[..|ops| - 1], ops[|ops| - 1];
      ClockedPrefix(ops, now);
      AtMostMaxPerWindow(before, key, cfg, last.now, t);
      var h := Admissions(before, key, cfg);
      if last.Check? && last.key == key && Told(before, key, last.now, cfg).Allowed? {
        AnswersFromHistory(before, key, cfg, last.now);
        assert (h + [last.now])[..|h|] == h;
        if t - cfg.window < last.now <= t { WindowWithinRecent(h, t, cfg.window, last.now - cfg.window); }
      }
    }
  }

  // ---------------------------------------------------------------- retry-after

  lemma {:induction false} RecentAtMostMax(ops: seq<Op>, key: Key, cfg: Config, now: int)
    requires Clocked(ops, now)
    ensures |Recent(Admissions(ops, key, cfg), now - cfg.window)| <= cfg.max
  {
    AtMostMaxPerWindow(ops, key, cfg, now, now);
    AdmissionsOrdered(ops, key, cfg, now);
    RecentIsWindow(Admissions(ops, key, cfg), now, cfg.window);
  }

  lemma {:induction false} RecentIsWindow(ts: seq<int>, now: int, window: nat)
    requires Ordered(ts, now)
    ensures |Recent(ts, now - window)| == InWindow(ts, now, window)
  {
    if ts != [] {
      assert Ordered(ts[..|ts| - 1], now);
      RecentIsWindow(ts[..|ts| - 1], now, window);
    }
  }

  /**
    A refused caller that asks again when nothing else was admitted in between is admitted exactly from
    `now + retryAfter` on.
   */
  lemma RetryAfterIsExact(ops: seq<Op>, more: seq<Op>, key: Key, cfg: Config, now: int, later: int)
    requires Clocked(ops, now) && Told(ops, key, now, cfg).Limited? && now <= later
    requires Clocked(ops + more, later) && Admissions(ops + more, key, cfg) == Admissions(ops, key, cfg)
    ensures Told(ops + more, key, later, cfg).Allowed? <==> later >= now + Told(ops, key, now, cfg).retryAfter
  {
    hide Told, Clocked, Recent, Admissions;
    var h := Admissions(ops, key, cfg);
    AnswersFromHistory(ops, key, cfg, now);
    AnswersFromHistory(ops + more, key, cfg, later);
    AdmissionsOrdered(ops, key, cfg, now);
    RecentAtMostMax(ops, key, cfg, now);
    LaterCutoff(h, now - cfg.window, later - cfg.window, now);
  }

  /** The wait is positive and never longer than the window. */
  lemma RetryAfterInWindow(ops: seq<Op>, key: Key, cfg: Config, now: int)
    requires Clocked(ops, now) && Told(ops, key, now, cfg).Limited?
    ensures 0 < Told(ops, key, now, cfg).retryAfter <= cfg.window
  {
    hide Recent, Told, Admissions, Clocked;
    AnswersFromHistory(ops, key, cfg, now);
    AdmissionsOrdered(ops, key, cfg, now);
    RecentOrdered(Admissions(ops, key, cfg), now - cfg.window, now);
  }

  /** The quota left that an admitted caller is told is what the window that ends now has room for. */
  lemma RemainingIsTheRoomLeft(ops: seq<Op>, key: Key, cfg: Config, now: int)
    requires Clocked(ops, now) && Told(ops, key, now, cfg).Allowed?
    ensures InWindow(Admissions(ops + [Check(key, now)], key, cfg), now, cfg.window) + Told(ops, key, now, cfg).remaining ==
            if cfg.window > 0 then cfg.max else cfg.max - 1
  {
    hide Recent, Told, Clocked;
    var h := Admissions(ops, key, cfg);
    assert (ops + [Check(key, now)])[..|ops|] == ops;
    assert Admissions(ops + [Check(key, now)], key, cfg) == h + [now] && (h + [now])[..|h|] == h;
    AnswersFromHistory(ops, key, cfg, now);
    AdmissionsOrdered(ops, key, cfg, now);
    RecentIsWindow(h, now, cfg.window);
  }

  /** A check panics exactly when the configured maximum is zero. */
  lemma PanicsExactlyWhenZero(ops: seq<Op>, key: Key, cfg: Config, now: int)
    requires Clocked(ops, now)
    ensures Told(ops, key, now, cfg) == Panics <==> cfg.max == 0
  {
    hide Recent, Told, Admissions, Clocked;
    AnswersFromHistory(ops, key, cfg, now);
    RecentAtMostMax(ops, key, cfg, now);
  }

  // ---------------------------------------------------------------- the limiter as an object

  /** `Vec::retain` of the timestamps after the cutoff. */
  method Retain(ts: seq<int>, cutoff: int) returns (kept: seq<int>)
    ensures kept == Recent(ts, cutoff)
  {
    kept := [];
    for i := 0 to |ts|
      invariant kept == Recent(ts[..i], cutoff)
    {
      assert ts[..i + 1] == ts[..i] + [ts[i]];
      RecentSnoc(ts[..i], ts[i], cutoff);
      if ts[i] > cutoff { kept := kept + [ts[i]]; }
    }
    assert ts[..|ts|] == ts;
  }

  class RateLimiter {
    const cfg: Config
    var entries: Entries

    constructor (cfg: Config)
      ensures this.cfg == cfg && entries == map[]
    {
      this.cfg := cfg;
      entries := map[];
    }

    method CheckKey(key: Key, now: int) returns (r: Outcome)
      modifies this
      ensures r == Answer(EntryOf(old(entries), key), now, cfg) && entries == Step(old(entries), Check(key, now), cfg)
    {
      var ts := if key in entries then entries[key] else [];
      var live := Retain(ts, now - cfg.window);
      if |live| >= cfg.max {
        entries := entries[key := live];
        if |live| == 0 { return Panics; }
        return Limited(cfg.window - (now - live[0]));
      }
      entries := entries[key := live + [now]];
      r := Allowed(cfg.max - |live| - 1);
    }

    method Remaining(key: Key, now: int) returns (n: nat)
      ensures var a := Answer(EntryOf(entries, key), now, cfg); n == if a.Allowed? then a.remaining + 1 else 0
    {
      if key !in entries { return cfg.max; }
      var live := Retain(entries[key], now - cfg.window);
      n := if cfg.max > |live| then cfg.max - |live| else 0;
    }

    method PruneAll(now: int)
      modifies this
      ensures entries == Step(old(entries), Prune(now), cfg)
    {
      hide Recent;
      var cutoff := now - cfg.window;
      var left, kept: Entries := entries.Keys, map[];
      while left != {}
        invariant left <= entries.Keys && entries == old(entries)
        invariant kept == map k | k in entries && k !in left && Recent(entries[k], cutoff) != [] :: Recent(entries[k], cutoff)
      {
        var k :| k in left;
        var live := Retain(entries[k], cutoff);
        if live != [] { kept := kept[k := live]; }
        left := left - {k};
      }
      entries := kept;
    }
  }
}
