/** The sliding window rate limiter of apps/api/src/security/rateLimit.ts: what it may forget, how
    many requests it lets through, and what its retry advice promises. */
module RateLimit {

  datatype Verdict = Verdict(allowed: bool, remaining: int, retryAfterSeconds: int)

  type Hits = map<string, seq<int>>

  /** The timestamps after start. */
  function Recent(timestamps: seq<int>, start: int): (r: seq<int>)
    ensures |r| <= |timestamps|
    ensures forall t :: t in r <==> t in timestamps && t > start
  {
    if timestamps == [] then []
    else
      var last := timestamps[|timestamps| - 1];
      Recent(timestamps[..|timestamps| - 1], start) + if last > start then [last] else []
  }

  function HitsOf(hits: Hits, key: string): seq<int> { if key in hits then hits[key] else [] }

  function Max(a: int, b: int): int { if a < b then b else a }

  function CeilSeconds(milliseconds: int): int { (milliseconds + 999) / 1000 }

  function Refusal(recent: seq<int>, now: int, windowMs: int): Verdict {
    var oldest := if recent == [] then now else recent[0];
    Verdict(false, 0, Max(1, CeilSeconds(oldest + windowMs - now)))
  }

  function Checked(hits: Hits, key: string, now: int, limit: int, windowMs: int): (Hits, Verdict) {
    var recent := Recent(HitsOf(hits, key), now - windowMs);
    if |recent| >= limit then (hits[key := recent], Refusal(recent, now, windowMs))
    else (hits[key := recent + [now]], Verdict(true, limit - |recent| - 1, 0))
  }

  function Swept(hits: Hits, now: int, windowMs: int): Hits {
    map key | key in hits && Recent(hits[key], now - windowMs) != [] :: Recent(hits[key], now - windowMs)
  }

  class RateLimiter {
    const limit: int
    const windowMs: int
    var hits: Hits

    constructor (limit: int, windowMs: int)
      ensures this.limit == limit && this.windowMs == windowMs && hits == map[]
    {
      this.limit, this.windowMs, hits := limit, windowMs, map[];
    }

    method Check(key: string, now: int) returns (verdict: Verdict)
      modifies this
      ensures (hits, verdict) == Checked(old(hits), key, now, limit, windowMs)
    {
      var recent := Recent(HitsOf(hits, key), now - windowMs);
      if |recent| >= limit {
        var oldest := if |recent| > 0 then recent[0] else now;
        hits := hits[key := recent];
        return Verdict(false, 0, Max(1, CeilSeconds(oldest + windowMs - now)));
      }
      recent := recent + [now];
      hits := hits[key := recent];
      return Verdict(true, limit - |recent|, 0);
    }

    method Reset(key: string)
      modifies this
      ensures hits == old(hits) - {key}
    {
      hits := hits - {key};
    }

    method Sweep(now: int)
      modifies this
      ensures hits == Swept(old(hits), now, windowMs)
    {
      var todo := hits.Keys;
      while todo != {}
        invariant todo <= old(hits).Keys
        invariant forall key :: key in todo ==> key in hits && hits[key] == old(hits)[key]
        invariant forall key :: key in hits && key !in todo ==>
                    key in Swept(old(hits), now, windowMs) && hits[key] == Swept(old(hits), now, windowMs)[key]
        invariant forall key :: key in Swept(old(hits), now, windowMs) ==> key in hits
        decreases |todo|
      {
        var key :| key in todo;
        todo := todo - {key};
        var recent := Recent(hits[key], now - windowMs);
        if |recent| == 0 { hits := hits - {key}; } else { hits := hits[key := recent]; }
      }
    }
  }

  // ----- runs -----

  datatype Op = CheckKey(key: string, now: int) | ResetKey(key: string) | SweepAll(now: int)

  datatype Answer = Answer(key: string, verdict: Verdict)

  /** Calls of the three operations: the map they leave, and the answers to the checks. */
  datatype Run = Run(hits: Hits, answers: seq<Answer>)

  function Step(run: Run, op: Op, limit: int, windowMs: int): Run {
    match op
    case CheckKey(key, now) =>
      var (hits, verdict) := Checked(run.hits, key, now, limit, windowMs);
      Run(hits, run.answers + [Answer(key, verdict)])
    case ResetKey(key) => run.(hits := run.hits - {key})
    case SweepAll(now) => run.(hits := Swept(run.hits, now, windowMs))
  }

  function RunOf(ops: seq<Op>, limit: int, windowMs: int): Run {
    if ops == [] then Run(map[], [])
    else Step(RunOf(ops[..|ops| - 1], limit, windowMs), ops[|ops| - 1], limit, windowMs)
  }

  function VerdictsFor(answers: seq<Answer>, key: string): seq<Verdict> {
    if answers == [] then []
    else
      var last := answers[|answers| - 1];
      VerdictsFor(answers[..|answers| - 1], key) + if last.key == key then [last.verdict] else []
  }

  // ----- one key at a time -----

  /** The bucket of one key and the verdicts its checks were given. */
  datatype Bucket = Bucket(hits: seq<int>, verdicts: seq<Verdict>)

  function AnswerTo(recent: seq<int>, now: int, limit: int, windowMs: int): Verdict {
    if |recent| >= limit then Refusal(recent, now, windowMs) else Verdict(true, limit - |recent| - 1, 0)
  }

  function BucketStep(b: Bucket, op: Op, key: string, limit: int, windowMs: int): Bucket {
    match op
    case CheckKey(k, now) =>
      var recent := Recent(b.hits, now - windowMs);
      if k != key then b
      else Bucket(if |recent| >= limit then recent else recent + [now],
                  b.verdicts + [AnswerTo(recent, now, limit, windowMs)])
    case ResetKey(k) => if k == key then b.(hits := []) else b
    case SweepAll(now) => b.(hits := Recent(b.hits, now - windowMs))
  }

  function BucketOf(ops: seq<Op>, key: string, limit: int, windowMs: int): Bucket {
    if ops == [] then Bucket([], [])
    else BucketStep(BucketOf(ops[..|ops| - 1], key, limit, windowMs), ops[|ops| - 1], key, limit, windowMs)
  }

  /** The reference: it decides by the same window, but forgets nothing except by a reset. */
  function FullStep(b: Bucket, op: Op, key: string, limit: int, windowMs: int): Bucket {
    match op
    case CheckKey(k, now) =>
      var recent := Recent(b.hits, now - windowMs);
      if k != key then b
      else Bucket(if |recent| >= limit then b.hits else b.hits + [now],
                  b.verdicts + [AnswerTo(recent, now, limit, windowMs)])
    case ResetKey(k) => if k == key then b.(hits := []) else b
    case SweepAll(_) => b
  }

  function FullOf(ops: seq<Op>, key: string, limit: int, windowMs: int): Bucket {
    if ops == [] then Bucket([], [])
    else FullStep(FullOf(ops[..|ops| - 1], key, limit, windowMs), ops[|ops| - 1], key, limit, windowMs)
  }

  lemma AppendAnswer(answers: seq<Answer>, a: Answer, key: string)
    ensures VerdictsFor(answers + [a], key) == VerdictsFor(answers, key) + if a.key == key then [a.verdict] else []
  {
    assert (answers + [a])[..|answers|] == answers;
  }

  lemma StepIsBucketStep(run: Run, b: Bucket, op: Op, key: string, limit: int, windowMs: int)
    requires HitsOf(run.hits, key) == b.hits && VerdictsFor(run.answers, key) == b.verdicts
    ensures var next, bucket := Step(run, op, limit, windowMs), BucketStep(b, op, key, limit, windowMs);
            HitsOf(next.hits, key) == bucket.hits && VerdictsFor(next.answers, key) == bucket.verdicts
  {
    hide Recent, Refusal, VerdictsFor;
    if op.CheckKey? {
      AppendAnswer(run.answers, Answer(op.key, Checked(run.hits, op.key, op.now, limit, windowMs).1), key);
    }
    assert b.verdicts + [] == b.verdicts;
  }

  /** Keys do not influence each other: in every run a key sees its own checks and resets and the
      sweeps, and nothing else. */
  lemma {:induction false} KeysAreIndependent(ops: seq<Op>, key: string, limit: int, windowMs: int)
    ensures HitsOf(RunOf(ops, limit, windowMs).hits, key) == BucketOf(ops, key, limit, windowMs).hits
    ensures VerdictsFor(RunOf(ops, limit, windowMs).answers, key) == BucketOf(ops, key, limit, windowMs).verdicts
  {
    hide Step, BucketStep;
    if ops != [] {
      var init := ops[..|ops| - 1];
      KeysAreIndependent(init, key, limit, windowMs);
      StepIsBucketStep(RunOf(init, limit, windowMs),
                       BucketOf(init, key, limit, windowMs), ops[|ops| - 1], key, limit, windowMs);
    }
  }

  // ----- recent hits -----

  lemma RecentAppend(a: seq<int>, t: int, start: int)
    ensures Recent(a + [t], start) == Recent(a, start) + if t > start then [t] else []
  {
    assert (a + [t])[..|a|] == a;
  }

  lemma {:induction false} RecentRecent(a: seq<int>, s: int, t: int)
    requires s <= t
    ensures Recent(Recent(a, s), t) == Recent(a, t)
  {
    if a != [] {
      var n := |a| - 1;
      RecentRecent(a[..n], s, t);
      RecentAppend(Recent(a[..n], s), a[n], t);
      assert Recent(a[..n], s) + [] == Recent(a[..n], s) && Recent(a[..n], t) + [] == Recent(a[..n], t);
    }
  }

  /** Nothing is dropped exactly when every hit is recent, and otherwise the list gets shorter. */
  lemma {:induction false} RecentKeepsAll(a: seq<int>, start: int)
    ensures if forall h :: h in a ==> h > start then Recent(a, start) == a else |Recent(a, start)| < |a|
  {
    if a != [] {
      var init, last := a[..|a| - 1], a[|a| - 1];
      RecentKeepsAll(init, start);
      RecentAppend(init, last, start);
      assert a == init + [last];
      hide Recent;
      forall h | h in init ensures h in a {}
      assert last in a && forall h :: h in a ==> h in init || h == last;
    }
  }

  // ----- when forgetting old hits changes nothing -----

  /** The times at which the key was checked since it was last reset. */
  function ChecksSince(ops: seq<Op>, key: string): seq<int> {
    if ops == [] then []
    else
      var before := ChecksSince(ops[..|ops| - 1], key);
      match ops[|ops| - 1]
      case CheckKey(k, now) => if k == key then before + [now] else before
      case ResetKey(k) => if k == key then [] else before
      case SweepAll(_) => before
  }

  /** The operation drops old hits of the key. */
  predicate Prunes(op: Op, key: string) { op.SweepAll? || (op.CheckKey? && op.key == key) }

  /** No bucket of the key was pruned at a time later than t, unless it held nothing that old. */
  predicate Safe(ops: seq<Op>, key: string, t: int) {
    if ops == [] then true
    else
      var init, op := ops[..|ops| - 1], ops[|ops| - 1];
      if op == ResetKey(key) then true
      else
        && Safe(init, key, t)
        && (Prunes(op, key) ==> op.now <= t || forall h :: h in ChecksSince(init, key) ==> h > op.now)
  }

  /** No check of the key comes at a time before its bucket was pruned. */
  predicate Ordered(ops: seq<Op>, key: string) {
    if ops == [] then true
    else
      var init, op := ops[..|ops| - 1], ops[|ops| - 1];
      Ordered(init, key) && (op.CheckKey? && op.key == key ==> Safe(init, key, op.now))
  }

  /** Every hit is a check, and unless some were dropped or refused, every check is a hit. */
  ghost predicate FromChecks(hits: seq<int>, checks: seq<int>) {
    (forall h :: h in hits ==> h in checks) && (hits == checks || |hits| < |checks|)
  }

  lemma PrunedFromChecks(hits: seq<int>, checks: seq<int>, now: int, start: int)
    requires FromChecks(hits, checks)
    ensures var kept := Recent(hits, start);
            FromChecks(kept, checks) && FromChecks(kept, checks + [now]) && FromChecks(kept + [now], checks + [now])
  {
    RecentKeepsAll(hits, start);
    hide Recent;
  }

  lemma {:induction false} HitsAreChecks(ops: seq<Op>, key: string, limit: int, windowMs: int)
    ensures FromChecks(BucketOf(ops, key, limit, windowMs).hits, ChecksSince(ops, key))
  {
    if ops != [] {
      var init, op := ops[..|ops| - 1], ops[|ops| - 1];
      HitsAreChecks(init, key, limit, windowMs);
      if Prunes(op, key) {
        PrunedFromChecks(BucketOf(init, key, limit, windowMs).hits, ChecksSince(init, key), op.now, op.now - windowMs);
      }
      hide Recent, AnswerTo, FromChecks;
    }
  }

  /** What a prune at time s leaves is what counts from time t on, if it is safe. */
  lemma SafePrune(hits: seq<int>, checks: seq<int>, s: int, t: int, windowMs: nat, start: int)
    requires forall h :: h in hits ==> h in checks
    requires s <= t || forall h :: h in checks ==> h > s
    requires start >= t - windowMs
    ensures Recent(Recent(hits, s - windowMs), start) == Recent(hits, start)
  {
    hide Recent;
    if s <= t {
      RecentRecent(hits, s - windowMs, start);
    } else {
      RecentKeepsAll(hits, s - windowMs);
      assert Recent(hits, s - windowMs) == hits;
    }
  }

  lemma CheckSeesTheSame(mine: Bucket, full: Bucket, checks: seq<int>, key: string, s: int, t: int,
                         limit: int, windowMs: nat, start: int)
    requires forall h :: h in mine.hits ==> h in checks
    requires s <= t || forall h :: h in checks ==> h > s
    requires start >= t - windowMs && Recent(mine.hits, start) == Recent(full.hits, start)
    requires Recent(mine.hits, s - windowMs) == Recent(full.hits, s - windowMs)
    ensures Recent(BucketStep(mine, CheckKey(key, s), key, limit, windowMs).hits, start)
         == Recent(FullStep(full, CheckKey(key, s), key, limit, windowMs).hits, start)
  {
    var recent := Recent(mine.hits, s - windowMs);
    SafePrune(mine.hits, checks, s, t, windowMs, start);
    RecentAppend(recent, s, start);
    RecentAppend(full.hits, s, start);
    hide Recent, AnswerTo;
  }

  /** From every safe time on the two limiters see the same hits. */
  lemma {:induction false} SameFromSafeTimes(ops: seq<Op>, key: string, t: int, limit: int, windowMs: nat, start: int)
    requires Ordered(ops, key) && Safe(ops, key, t) && start >= t - windowMs
    ensures Recent(BucketOf(ops, key, limit, windowMs).hits, start)
       == Recent(FullOf(ops, key, limit, windowMs).hits, start)
  {
    hide Recent, AnswerTo;
    if ops != [] && ops[|ops| - 1] != ResetKey(key) {
      var init, op := ops[..|ops| - 1], ops[|ops| - 1];
      var mine, full := BucketOf(init, key, limit, windowMs), FullOf(init, key, limit, windowMs);
      SameFromSafeTimes(init, key, t, limit, windowMs, start);
      HitsAreChecks(init, key, limit, windowMs);
      if op.SweepAll? {
        SafePrune(mine.hits, ChecksSince(init, key), op.now, t, windowMs, start);
      } else if op.CheckKey? && op.key == key {
        SameFromSafeTimes(init, key, op.now, limit, windowMs, op.now - windowMs);
        CheckSeesTheSame(mine, full, ChecksSince(init, key), key, op.now, t, limit, windowMs, start);
      }
    }
  }

  lemma {:induction false} OrderedSeesTheSame(ops: seq<Op>, key: string, limit: int, windowMs: nat)
    requires Ordered(ops, key)
    ensures BucketOf(ops, key, limit, windowMs).verdicts == FullOf(ops, key, limit, windowMs).verdicts
  {
    hide Recent, AnswerTo, Safe;
    if ops != [] {
      var init, op := ops[..|ops| - 1], ops[|ops| - 1];
      OrderedSeesTheSame(init, key, limit, windowMs);
      if op.CheckKey? && op.key == key { SameFromSafeTimes(init, key, op.now, limit, windowMs, op.now - windowMs); }
    }
  }

  // ----- and when it does -----

  lemma {:induction false} Least(checks: seq<int>) returns (x: int)
    requires checks != []
    ensures x in checks && forall h :: h in checks ==> x <= h
  {
    var n := |checks| - 1;
    x := checks[n];
    if n > 0 {
      var y := Least(checks[..n]);
      assert forall h :: h in checks <==> h in checks[..n] || h == checks[n];
      if y < x { x := y; }
    }
  }

  /** Whatever the limit, not every check since the last reset is a hit any more. */
  ghost predicate SomeGone(ops: seq<Op>, key: string, windowMs: int) {
    forall limit: int :: |BucketOf(ops, key, limit, windowMs).hits| < |ChecksSince(ops, key)|
  }

  /** A prune at time s lost a hit that still counts at the earlier time t. */
  ghost predicate Loses(ops: seq<Op>, key: string, t: int, s: int, windowMs: nat) {
    && t < s
    && (forall h :: h in ChecksSince(ops, key) ==> h > t - windowMs)
    && (forall y :: Safe(ops, key, y) ==> y >= s)
    && SomeGone(ops, key, windowMs)
  }

  lemma StepLengths(init: seq<Op>, op: Op, key: string, limit: int, windowMs: int)
    requires op != ResetKey(key)
    ensures var checked := if op.CheckKey? && op.key == key then 1 else 0;
            var hits := BucketOf(init, key, limit, windowMs).hits;
            && |ChecksSince(init + [op], key)| == |ChecksSince(init, key)| + checked
            && |BucketOf(init + [op], key, limit, windowMs).hits|
               <= (if Prunes(op, key) then |Recent(hits, op.now - windowMs)| else |hits|) + checked
  {
    hide Recent, AnswerTo;
    var ops := init + [op];
    assert ops[..|ops| - 1] == init && ops[|ops| - 1] == op;
  }

  lemma OldestIsDropped(hits: seq<int>, checks: seq<int>, x: int)
    requires FromChecks(hits, checks) && x in checks
    ensures |Recent(hits, x)| < |checks|
  {
    RecentKeepsAll(hits, x);
    hide Recent;
    if hits == checks { assert x in hits; }
  }

  lemma OldestGoes(init: seq<Op>, op: Op, key: string, x: int, limit: int)
    requires Prunes(op, key) && x in ChecksSince(init, key) && x <= op.now
    ensures |BucketOf(init + [op], key, limit, op.now - x).hits| < |ChecksSince(init + [op], key)|
  {
    hide Recent, BucketOf, ChecksSince, FromChecks;
    HitsAreChecks(init, key, limit, op.now - x);
    OldestIsDropped(BucketOf(init, key, limit, op.now - x).hits, ChecksSince(init, key), x);
    StepLengths(init, op, key, limit, op.now - x);
  }

  lemma GoneStaysGone(init: seq<Op>, op: Op, key: string, windowMs: nat)
    requires SomeGone(init, key, windowMs) && op != ResetKey(key)
    ensures SomeGone(init + [op], key, windowMs)
  {
    hide Recent, BucketOf, ChecksSince;
    forall limit: int ensures |BucketOf(init + [op], key, limit, windowMs).hits| < |ChecksSince(init + [op], key)| {
      assert |BucketOf(init, key, limit, windowMs).hits| < |ChecksSince(init, key)|;
      StepLengths(init, op, key, limit, windowMs);
    }
  }

  lemma PruneLoses(init: seq<Op>, op: Op, key: string, t: int) returns (windowMs: nat)
    requires Prunes(op, key) && t < op.now && exists h :: h in ChecksSince(init, key) && h <= op.now
    ensures Loses(init + [op], key, t, op.now, windowMs)
  {
    var x := Least(ChecksSince(init, key));
    windowMs := op.now - x;
    assert SomeGone(init + [op], key, windowMs) by {
      forall limit: int ensures |BucketOf(init + [op], key, limit, windowMs).hits| < |ChecksSince(init + [op], key)| {
        OldestGoes(init, op, key, x, limit);
      }
    }
    hide SomeGone;
    var ops := init + [op];
    assert ops[..|ops| - 1] == init;
  }

  lemma StillLost(init: seq<Op>, op: Op, key: string, t: int, s: int, windowMs: nat)
    requires Loses(init, key, t, s, windowMs) && op != ResetKey(key) && Ordered(init + [op], key)
    ensures Loses(init + [op], key, t, s, windowMs)
  {
    GoneStaysGone(init, op, key, windowMs);
    hide SomeGone;
    var ops := init + [op];
    assert ops[..|ops| - 1] == init;
    assert forall y :: Safe(ops, key, y) ==> y >= s;
    assert forall h :: h in ChecksSince(ops, key) ==> h > t - windowMs;
  }

  lemma {:induction false} SomethingIsLost(ops: seq<Op>, key: string, t: int) returns (s: int, windowMs: nat)
    requires Ordered(ops, key) && !Safe(ops, key, t)
    ensures Loses(ops, key, t, s, windowMs)
  {
    hide Loses;
    var init, op := ops[..|ops| - 1], ops[|ops| - 1];
    assert ops == init + [op];
    if !Safe(init, key, t) {
      s, windowMs := SomethingIsLost(init, key, t);
      StillLost(init, op, key, t, s, windowMs);
    } else {
      s := op.now;
      windowMs := PruneLoses(init, op, key, t);
    }
  }

  lemma {:induction false} FullKeepsChecks(ops: seq<Op>, key: string, limit: int, windowMs: int)
    requires limit >= |ChecksSince(ops, key)|
    ensures FullOf(ops, key, limit, windowMs).hits == ChecksSince(ops, key)
  {
    hide Recent, AnswerTo;
    if ops != [] && ops[|ops| - 1] != ResetKey(key) { FullKeepsChecks(ops[..|ops| - 1], key, limit, windowMs); }
  }

  lemma LostHitIsMissed(init: seq<Op>, key: string, t: int) returns (limit: nat, windowMs: nat)
    requires Ordered(init, key) && !Safe(init, key, t)
    ensures AnswerTo(Recent(BucketOf(init, key, limit, windowMs).hits, t - windowMs), t, limit, windowMs).allowed
    ensures !AnswerTo(Recent(FullOf(init, key, limit, windowMs).hits, t - windowMs), t, limit, windowMs).allowed
  {
    var s: int;
    s, windowMs := SomethingIsLost(init, key, t);
    limit := |ChecksSince(init, key)|;
    hide BucketOf, FullOf, ChecksSince, Safe, Recent, Refusal;
    FullKeepsChecks(init, key, limit, windowMs);
    RecentKeepsAll(ChecksSince(init, key), t - windowMs);
    assert |BucketOf(init, key, limit, windowMs).hits| < limit;
  }

  lemma {:induction false} SomeVerdictsDiffer(ops: seq<Op>, key: string) returns (limit: nat, windowMs: nat)
    requires !Ordered(ops, key)
    ensures BucketOf(ops, key, limit, windowMs).verdicts != FullOf(ops, key, limit, windowMs).verdicts
  {
    hide Recent, AnswerTo, Safe;
    var init, op := ops[..|ops| - 1], ops[|ops| - 1];
    if !Ordered(init, key) {
      limit, windowMs := SomeVerdictsDiffer(init, key);
    } else {
      limit, windowMs := LostHitIsMissed(init, key, op.now);
    }
    AsManyVerdicts(init, key, limit, windowMs);
    var mine, full := BucketOf(ops, key, limit, windowMs).verdicts, FullOf(ops, key, limit, windowMs).verdicts;
    var n := |BucketOf(init, key, limit, windowMs).verdicts|;
    assert mine[..n] == BucketOf(init, key, limit, windowMs).verdicts
           && full[..n] == FullOf(init, key, limit, windowMs).verdicts;
  }

  lemma {:induction false} AsManyVerdicts(ops: seq<Op>, key: string, limit: int, windowMs: int)
    ensures |BucketOf(ops, key, limit, windowMs).verdicts| == |FullOf(ops, key, limit, windowMs).verdicts|
  {
    hide Recent, AnswerTo;
    if ops != [] { AsManyVerdicts(ops[..|ops| - 1], key, limit, windowMs); }
  }

  /** Whatever the limit and the window, the limiter answers the checks of a key like one that keeps the
      whole history, exactly when no check of the key comes before its bucket was pruned. */
  lemma PruningDecidesExactly(ops: seq<Op>, key: string)
    ensures (forall limit: nat, windowMs: nat ::
              VerdictsFor(RunOf(ops, limit, windowMs).answers, key) == FullOf(ops, key, limit, windowMs).verdicts)
       <==> Ordered(ops, key)
  {
    hide RunOf, BucketOf, FullOf, VerdictsFor;
    forall limit: nat, windowMs: nat
      ensures VerdictsFor(RunOf(ops, limit, windowMs).answers, key) == BucketOf(ops, key, limit, windowMs).verdicts
    {
      KeysAreIndependent(ops, key, limit, windowMs);
    }
    if Ordered(ops, key) {
      forall limit: nat, windowMs: nat
        ensures VerdictsFor(RunOf(ops, limit, windowMs).answers, key) == FullOf(ops, key, limit, windowMs).verdicts
      {
        OrderedSeesTheSame(ops, key, limit, windowMs);
      }
    } else {
      var limit, windowMs := SomeVerdictsDiffer(ops, key);
      assert VerdictsFor(RunOf(ops, limit, windowMs).answers, key) != FullOf(ops, key, limit, windowMs).verdicts;
    }
  }

  /** The clock never runs backwards. */
  ghost predicate Timely(ops: seq<Op>) {
    forall i, j :: 0 <= i < j < |ops| && !ops[i].ResetKey? && !ops[j].ResetKey? ==> ops[i].now <= ops[j].now
  }

  /** No operation happened after the given time. */
  ghost predicate Until(ops: seq<Op>, clock: int) {
    forall i :: 0 <= i < |ops| && !ops[i].ResetKey? ==> ops[i].now <= clock
  }

  lemma {:induction false} TimelyIsSafe(ops: seq<Op>, key: string, clock: int)
    requires Timely(ops) && Until(ops, clock)
    ensures Ordered(ops, key) && Safe(ops, key, clock)
  {
    hide ChecksSince;
    if ops != [] {
      var init, op := ops[..|ops| - 1], ops[|ops| - 1];
      TimelyIsSafe(init, key, clock);
      if !op.ResetKey? { TimelyIsSafe(init, key, op.now); }
    }
  }

  lemma {:induction false} LatestTime(ops: seq<Op>) returns (clock: int)
    ensures Until(ops, clock)
  {
    if ops == [] {
      clock := 0;
    } else {
      clock := LatestTime(ops[..|ops| - 1]);
      if !ops[|ops| - 1].ResetKey? { clock := Max(clock, ops[|ops| - 1].now); }
    }
  }

  /** With a clock that does not run backwards pruning is invisible for every key, limit and window. */
  lemma PruningDecidesAsFullHistory(ops: seq<Op>, key: string, limit: nat, windowMs: nat)
    requires Timely(ops)
    ensures Ordered(ops, key)
    ensures VerdictsFor(RunOf(ops, limit, windowMs).answers, key) == FullOf(ops, key, limit, windowMs).verdicts
  {
    hide Ordered;
    var clock := LatestTime(ops);
    TimelyIsSafe(ops, key, clock);
    PruningDecidesExactly(ops, key);
  }

  // ----- how many are let through -----

  /** The times of the checks of the key the limiter allowed since the key was last reset. */
  function AllowedSince(ops: seq<Op>, key: string, limit: int, windowMs: int): seq<int> {
    if ops == [] then []
    else
      var init := ops[..|ops| - 1];
      var before := AllowedSince(init, key, limit, windowMs);
      match ops[|ops| - 1]
      case CheckKey(k, now) =>
        if k == key && Checked(RunOf(init, limit, windowMs).hits, k, now, limit, windowMs).1.allowed then before + [now]
        else before
      case ResetKey(k) => if k == key then [] else before
      case SweepAll(_) => before
  }

  /** How many of the timestamps lie after start and not after end. */
  function Within(timestamps: seq<int>, start: int, end: int): nat {
    if timestamps == [] then 0
    else
      var last := timestamps[|timestamps| - 1];
      Within(timestamps[..|timestamps| - 1], start, end) + if start < last <= end then 1 else 0
  }

  lemma AllowedExactly(hits: Hits, key: string, now: int, limit: int, windowMs: int)
    ensures Checked(hits, key, now, limit, windowMs).1.allowed <==> |Recent(HitsOf(hits, key), now - windowMs)| < limit
  {
    hide Recent;
  }

  lemma {:induction false} AllowedAreFullHits(ops: seq<Op>, key: string, limit: int, windowMs: nat)
    requires Ordered(ops, key)
    ensures AllowedSince(ops, key, limit, windowMs) == FullOf(ops, key, limit, windowMs).hits
  {
    hide Recent, RunOf, BucketOf, Safe, Refusal;
    if ops != [] {
      var init, op := ops[..|ops| - 1], ops[|ops| - 1];
      AllowedAreFullHits(init, key, limit, windowMs);
      if op.CheckKey? && op.key == key {
        KeysAreIndependent(init, key, limit, windowMs);
        SameFromSafeTimes(init, key, op.now, limit, windowMs, op.now - windowMs);
        AllowedExactly(RunOf(init, limit, windowMs).hits, key, op.now, limit, windowMs);
        hide Checked;
      }
    }
  }

  lemma WithinAppend(a: seq<int>, t: int, start: int, end: int)
    ensures Within(a + [t], start, end) == Within(a, start, end) + if start < t <= end then 1 else 0
  {
    assert (a + [t])[..|a|] == a;
  }

  lemma {:induction false} WithinAtMostRecent(a: seq<int>, start: int, end: int, from: int)
    requires from <= start
    ensures Within(a, start, end) <= |Recent(a, from)|
  {
    if a != [] { WithinAtMostRecent(a[..|a| - 1], start, end, from); }
  }

  lemma {:induction false} FullIsBounded(ops: seq<Op>, key: string, limit: int, windowMs: nat, start: int)
    ensures Within(FullOf(ops, key, limit, windowMs).hits, start, start + windowMs) <= Max(limit, 0)
  {
    hide Recent, AnswerTo;
    if ops != [] {
      var init, op := ops[..|ops| - 1], ops[|ops| - 1];
      FullIsBounded(init, key, limit, windowMs, start);
      if op.CheckKey? && op.key == key {
        var all := FullOf(init, key, limit, windowMs).hits;
        WithinAppend(all, op.now, start, start + windowMs);
        if start < op.now <= start + windowMs { WithinAtMostRecent(all, start, start + windowMs, op.now - windowMs); }
        hide Within;
      }
    }
  }

  /** Among the checks of a key since its last reset, the limiter allows at most limit in any window of
      length windowMs, as long as no check of the key comes before its bucket was pruned. */
  lemma WindowsAreBounded(ops: seq<Op>, key: string, limit: int, windowMs: nat, start: int)
    requires Ordered(ops, key)
    ensures Within(AllowedSince(ops, key, limit, windowMs), start, start + windowMs) <= Max(limit, 0)
  {
    hide Ordered, AllowedSince, FullOf, Within;
    AllowedAreFullHits(ops, key, limit, windowMs);
    FullIsBounded(ops, key, limit, windowMs, start);
  }

  lemma SweptBucketAllowsTwo(key: string)
    ensures var first, swept := [CheckKey(key, 0)], [CheckKey(key, 0), SweepAll(10)];
            && RunOf(swept, 1, 5).hits == map[]
            && AllowedSince(first, key, 1, 5) == [0] && AllowedSince(swept, key, 1, 5) == [0]
  {
    var check, sweep := CheckKey(key, 0), SweepAll(10);
    assert [check, sweep][..1] == [check] && [check][..0] == [] && [0][..0] == [];
    assert Recent([], -5) == [] && Recent([0], 5) == [];
    var one := Run(map[key := [0]], [Answer(key, Verdict(true, 0, 0))]);
    assert RunOf([], 1, 5) == Run(map[], []);
    var none: Hits := map[];
    assert HitsOf(none, key) == [] && Recent([], 0 - 5) == [] && [] + [0] == [0];
    assert Checked(none, key, 0, 1, 5) == (none[key := [0]], Verdict(true, 0, 0));
    assert RunOf([check], 1, 5) == Step(Run(map[], []), check, 1, 5) == one;
    assert RunOf([check, sweep], 1, 5) == Step(one, sweep, 1, 5);
  }

  lemma FullHistoryRefuses(key: string)
    ensures FullOf([CheckKey(key, 0), SweepAll(10), CheckKey(key, 0)], key, 1, 5).verdicts
         == [Verdict(true, 0, 0), Verdict(false, 0, 1)]
  {
    var check, sweep := CheckKey(key, 0), SweepAll(10);
    assert [check, sweep, check][..2] == [check, sweep] && [check, sweep][..1] == [check] && [check][..0] == [];
    assert [0][..0] == [] && Recent([], -5) == [] && Recent([0], -5) == [0];
    var had := Bucket([0], [Verdict(true, 0, 0)]);
    assert FullOf([], key, 1, 5) == Bucket([], []);
    assert FullOf([check], key, 1, 5) == FullStep(Bucket([], []), check, key, 1, 5) == had;
    assert FullOf([check, sweep], key, 1, 5) == FullStep(had, sweep, key, 1, 5) == had;
  }

  lemma SweepIsNotSafe(key: string)
    ensures !Ordered([CheckKey(key, 0), SweepAll(10), CheckKey(key, 0)], key)
  {
    var check, sweep := CheckKey(key, 0), SweepAll(10);
    assert [check, sweep, check][..2] == [check, sweep] && [check, sweep][..1] == [check] && [check][..0] == [];
    assert ChecksSince([check], key) == ChecksSince([], key) + [0];
    assert 0 in ChecksSince([check], key);
    assert !Safe([check, sweep], key, 0);
  }

  /** When the clock runs backwards behind a sweep, the limiter forgets: with a limit of one hit in five
      milliseconds it lets two checks at time 0 through, where the full history refuses the second. */
  lemma BackwardClockForgets(key: string)
    ensures var ops := [CheckKey(key, 0), SweepAll(10), CheckKey(key, 0)];
            && !Ordered(ops, key)
            && AllowedSince(ops, key, 1, 5) == [0, 0] && Within([0, 0], -1, 4) == 2
            && FullOf(ops, key, 1, 5).verdicts == [Verdict(true, 0, 0), Verdict(false, 0, 1)]
  {
    SweptBucketAllowsTwo(key);
    FullHistoryRefuses(key);
    SweepIsNotSafe(key);
    var ops, swept := [CheckKey(key, 0), SweepAll(10), CheckKey(key, 0)], [CheckKey(key, 0), SweepAll(10)];
    assert ops[..2] == swept && [0, 0][..1] == [0] && [0][..0] == [];
    hide RunOf, FullOf, Ordered;
    assert Recent([], -5) == [];
    assert AllowedSince(ops, key, 1, 5) == AllowedSince(swept, key, 1, 5) + [0];
  }

  // ----- what the advice promises -----

  ghost predicate Ascending(times: seq<int>) {
    forall i, j :: 0 <= i < j < |times| ==> times[i] <= times[j]
  }

  lemma AscendingAppend(times: seq<int>, t: int)
    ensures Ascending(times + [t]) <==> Ascending(times) && forall h :: h in times ==> h <= t
  {
    var more := times + [t];
    assert more[|times|] == t && forall i :: 0 <= i < |times| ==> more[i] == times[i];
    if Ascending(more) {
      forall i, j | 0 <= i < j < |times| ensures times[i] <= times[j] { assert more[i] <= more[j]; }
      forall h | h in times ensures h <= t {
        var i :| 0 <= i < |times| && times[i] == h;
        assert more[i] <= more[|times|];
      }
    } else {
      var i, j :| 0 <= i < j < |more| && more[i] > more[j];
      assert times[i] in times;
    }
  }

  lemma {:induction false} RecentAscends(times: seq<int>, start: int)
    requires Ascending(times)
    ensures Ascending(Recent(times, start))
  {
    if times != [] {
      var init, last := times[..|times| - 1], times[|times| - 1];
      RecentAscends(init, start);
      var kept := Recent(init, start);
      forall i | 0 <= i < |kept| ensures kept[i] <= last { assert kept[i] in init; }
    }
  }

  lemma PrunedAscends(hits: seq<int>, checks: seq<int>, now: int, start: int)
    requires Ascending(hits) && FromChecks(hits, checks)
    ensures Ascending(Recent(hits, start)) && (Ascending(checks + [now]) ==> Ascending(Recent(hits, start) + [now]))
  {
    RecentAscends(hits, start);
    AscendingAppend(checks, now);
    AscendingAppend(Recent(hits, start), now);
    hide Recent, Ascending;
  }

  /** Checks in order leave hits in order, at most limit of them. */
  lemma {:induction false} HitsAscend(ops: seq<Op>, key: string, limit: int, windowMs: int)
    requires Ascending(ChecksSince(ops, key))
    ensures Ascending(BucketOf(ops, key, limit, windowMs).hits)
            && |BucketOf(ops, key, limit, windowMs).hits| <= Max(limit, 0)
  {
    if ops == [] || ops[|ops| - 1] == ResetKey(key) {
      assert BucketOf(ops, key, limit, windowMs).hits == [];
    } else {
      hide Recent, AnswerTo, Ascending, FromChecks;
      var init, op := ops[..|ops| - 1], ops[|ops| - 1];
      if op.CheckKey? { AscendingAppend(ChecksSince(init, key), op.now); }
      HitsAscend(init, key, limit, windowMs);
      HitsAreChecks(init, key, limit, windowMs);
      if Prunes(op, key) {
        PrunedAscends(BucketOf(init, key, limit, windowMs).hits, ChecksSince(init, key), op.now, op.now - windowMs);
      }
    }
  }

  lemma {:induction false} RecentIsWithin(a: seq<int>, start: int, end: int)
    requires forall t :: t in a ==> t <= end
    ensures |Recent(a, start)| == Within(a, start, end)
  {
    if a != [] {
      var init := a[..|a| - 1];
      forall t | t in init ensures t <= end { assert t in a; }
      assert a[|a| - 1] in a;
      RecentIsWithin(init, start, end);
    }
  }

  lemma {:induction false} AllowedWereChecked(ops: seq<Op>, key: string, limit: int, windowMs: int)
    ensures forall t :: t in AllowedSince(ops, key, limit, windowMs) ==> t in ChecksSince(ops, key)
  {
    hide Checked, RunOf;
    if ops != [] { AllowedWereChecked(ops[..|ops| - 1], key, limit, windowMs); }
  }

  lemma CheckedVerdict(hits: Hits, key: string, now: int, limit: int, windowMs: int)
    ensures var verdict := Checked(hits, key, now, limit, windowMs).1;
            var spent := |Recent(HitsOf(hits, key), now - windowMs)|;
            && (verdict.allowed <==> spent < limit)
            && (verdict.allowed ==> verdict.remaining == limit - (spent + 1) && verdict.retryAfterSeconds == 0)
            && (!verdict.allowed ==> verdict.remaining == 0 && verdict.retryAfterSeconds >= 1)
  {
    hide Recent, HitsOf, CeilSeconds;
  }

  lemma OrderedPrefix(ops: seq<Op>, key: string, now: int)
    requires Ordered(ops + [CheckKey(key, now)], key)
    ensures Ordered(ops, key) && Safe(ops, key, now)
  {
    var all := ops + [CheckKey(key, now)];
    assert all[..|all| - 1] == ops && all[|all| - 1] == CheckKey(key, now);
    hide Safe;
  }

  lemma BucketHoldsTheSpent(ops: seq<Op>, key: string, now: int, limit: int, windowMs: nat)
    requires Ordered(ops + [CheckKey(key, now)], key) && Ascending(ChecksSince(ops, key) + [now])
    ensures |Recent(HitsOf(RunOf(ops, limit, windowMs).hits, key), now - windowMs)|
         == Within(AllowedSince(ops, key, limit, windowMs), now - windowMs, now)
  {
    hide *;
    OrderedPrefix(ops, key, now);
    KeysAreIndependent(ops, key, limit, windowMs);
    SameFromSafeTimes(ops, key, now, limit, windowMs, now - windowMs);
    AllowedAreFullHits(ops, key, limit, windowMs);
    AllowedWereChecked(ops, key, limit, windowMs);
    AscendingAppend(ChecksSince(ops, key), now);
    RecentIsWithin(AllowedSince(ops, key, limit, windowMs), now - windowMs, now);
  }

  /** With its checks in order, a key is allowed exactly while fewer than limit of its checks were allowed in the
      window that ends now, and it is told how many more would be. */
  lemma AllowedWhileFewer(ops: seq<Op>, key: string, now: int, limit: int, windowMs: nat)
    requires Ordered(ops + [CheckKey(key, now)], key) && Ascending(ChecksSince(ops, key) + [now])
    ensures var verdict := Checked(RunOf(ops, limit, windowMs).hits, key, now, limit, windowMs).1;
            var spent := Within(AllowedSince(ops, key, limit, windowMs), now - windowMs, now);
            && (verdict.allowed <==> spent < limit)
            && (verdict.allowed ==> verdict.remaining == limit - (spent + 1) && verdict.retryAfterSeconds == 0)
            && (!verdict.allowed ==> verdict.remaining == 0 && verdict.retryAfterSeconds >= 1)
  {
    hide *;
    BucketHoldsTheSpent(ops, key, now, limit, windowMs);
    CheckedVerdict(RunOf(ops, limit, windowMs).hits, key, now, limit, windowMs);
  }

  predicate LeavesAlone(ops: seq<Op>, key: string) {
    forall i :: 0 <= i < |ops| && !ops[i].SweepAll? ==> ops[i].key != key
  }

  /** Operations on other keys and sweeps lose no hit of the key that still counts later. */
  lemma {:induction false} UntouchedKey(ops: seq<Op>, more: seq<Op>, key: string, start: int, limit: int, windowMs: int)
    requires LeavesAlone(more, key) && Until(more, start + windowMs)
    ensures Recent(BucketOf(ops + more, key, limit, windowMs).hits, start)
         == Recent(BucketOf(ops, key, limit, windowMs).hits, start)
  {
    hide Recent, AnswerTo;
    if more == [] {
      assert ops + more == ops;
    } else {
      var init, op, all := more[..|more| - 1], more[|more| - 1], ops + more;
      UntouchedKey(ops, init, key, start, limit, windowMs);
      assert all[..|all| - 1] == ops + init && all[|all| - 1] == op;
      if op.SweepAll? { RecentRecent(BucketOf(ops + init, key, limit, windowMs).hits, op.now - windowMs, start); }
    }
  }

  lemma {:induction false} OldestDecides(hits: seq<int>, start: int)
    requires hits != [] && Ascending(hits)
    ensures |Recent(hits, start)| < |hits| <==> hits[0] <= start
  {
    RecentKeepsAll(hits, start);
    hide Recent;
    assert hits[0] in hits;
    if hits[0] > start {
      forall h | h in hits ensures h > start {
        var i :| 0 <= i < |hits| && hits[i] == h;
      }
    }
  }

  lemma WholeSeconds(milliseconds: int, wait: int)
    requires milliseconds >= 1
    ensures wait >= 1000 * Max(1, CeilSeconds(milliseconds)) ==> wait >= milliseconds
    ensures wait <= 1000 * (Max(1, CeilSeconds(milliseconds)) - 1) ==> wait < milliseconds
  {
  }

  lemma RefusedBucket(before: seq<Op>, key: string, now: int, limit: int, windowMs: int)
    requires limit >= 1 && Ascending(ChecksSince(before, key))
    requires |Recent(BucketOf(before, key, limit, windowMs).hits, now - windowMs)| >= limit
    ensures var recent := Recent(BucketOf(before, key, limit, windowMs).hits, now - windowMs);
            && BucketOf(before + [CheckKey(key, now)], key, limit, windowMs).hits == recent
            && |recent| == limit && Ascending(recent) && recent[0] > now - windowMs
  {
    var ops, hits := before + [CheckKey(key, now)], BucketOf(before, key, limit, windowMs).hits;
    HitsAscend(before, key, limit, windowMs);
    RecentAscends(hits, now - windowMs);
    hide Recent, Ascending;
    assert ops[..|ops| - 1] == before && ops[|ops| - 1] == CheckKey(key, now);
    assert Recent(hits, now - windowMs)[0] in Recent(hits, now - windowMs);
  }

  /** A refused check leaves a full bucket, and the key is allowed again once its oldest hit is too old. */
  lemma RefusedUntilOldestGoes(before: seq<Op>, key: string,
                               now: int, between: seq<Op>, wait: nat, limit: int, windowMs: int)
    requires limit >= 1 && Ascending(ChecksSince(before, key))
    requires LeavesAlone(between, key) && Until(between, now + wait)
    requires |Recent(BucketOf(before, key, limit, windowMs).hits, now - windowMs)| >= limit
    ensures var oldest := Recent(BucketOf(before, key, limit, windowMs).hits, now - windowMs)[0];
            var later := before + [CheckKey(key, now)] + between;
            oldest > now - windowMs &&
            (|Recent(BucketOf(later, key, limit, windowMs).hits, now + wait - windowMs)| < limit
             <==> oldest <= now + wait - windowMs)
  {
    var ops, start := before + [CheckKey(key, now)], now + wait - windowMs;
    hide BucketOf, Recent, Ascending, ChecksSince, LeavesAlone, Until;
    RefusedBucket(before, key, now, limit, windowMs);
    UntouchedKey(ops, between, key, start, limit, windowMs);
    OldestDecides(BucketOf(ops, key, limit, windowMs).hits, start);
  }

  /** After a refusal, and with no other check of the key in between, waiting for the advised number of
      seconds is enough, and every wait that is shorter by a whole second or more is refused again. */
  lemma RetryAdviceIsExact(before: seq<Op>, key: string,
                           now: int, between: seq<Op>, wait: nat, limit: int, windowMs: int)
    requires limit >= 1 && Ascending(ChecksSince(before, key))
    requires LeavesAlone(between, key) && Until(between, now + wait)
    requires !Checked(RunOf(before, limit, windowMs).hits, key, now, limit, windowMs).1.allowed
    ensures var advice := Checked(RunOf(before, limit, windowMs).hits, key, now, limit, windowMs).1.retryAfterSeconds;
            var later := RunOf(before + [CheckKey(key, now)] + between, limit, windowMs);
            var again := Checked(later.hits, key, now + wait, limit, windowMs).1.allowed;
            && (wait >= 1000 * advice ==> again)
            && (wait <= 1000 * (advice - 1) ==> !again)
  {
    var later := before + [CheckKey(key, now)] + between;
    KeysAreIndependent(before, key, limit, windowMs);
    KeysAreIndependent(later, key, limit, windowMs);
    hide RunOf, BucketOf, Recent, LeavesAlone, Until, Ascending, CeilSeconds;
    AllowedExactly(RunOf(later, limit, windowMs).hits, key, now + wait, limit, windowMs);
    RefusedUntilOldestGoes(before, key, now, between, wait, limit, windowMs);
    var oldest := Recent(BucketOf(before, key, limit, windowMs).hits, now - windowMs)[0];
    WholeSeconds(oldest + windowMs - now, wait);
  }
}
