/** The receiving limit of cmd/fmsgd/indicators.go: a token bucket per source
    address, in a bounded table that forgets sources whose bucket is full again.
    Times are seconds and tokens exact reals. */
module SourceLimit {
  type Source = string

  datatype Bucket = Bucket(tokens: real, last: real)

  /** `lastPrune` is absent until the first prune, as Go's zero time is. */
  datatype LastPrune = Never | At(time: real)
  datatype Table = Table(buckets: map<Source, Bucket>, lastPrune: LastPrune)

  datatype Config = Config(rate: real, burst: real, max: nat)

  ghost predicate ConfigOk(c: Config) { c.rate > 0.0 && c.burst >= 1.0 }

  function Min(a: real, b: real): real { if a <= b then a else b }

  /** Tokens earned between two times. */
  function Earned(c: Config, from: real, to: real): real { (to - from) * c.rate }

  /** Tokens of b at a later time, capped at the burst. */
  function Refill(c: Config, b: Bucket, at: real): real {
    Min(c.burst, b.tokens + Earned(c, b.last, at))
  }

  /** tokenBucket.allow */
  function Spend(c: Config, b: Bucket, now: real): (Bucket, bool) {
    var tokens := Refill(c, b, now);
    if tokens < 1.0 then (Bucket(tokens, now), false) else (Bucket(tokens - 1.0, now), true)
  }

  predicate Refilled(c: Config, b: Bucket, now: real)
    requires c.rate != 0.0
  {
    now - b.last >= c.burst / c.rate
  }

  function Pruned(c: Config, t: Table, now: real): Table
    requires c.rate != 0.0
  {
    Table(map s | s in t.buckets && !Refilled(c, t.buckets[s], now) :: t.buckets[s], At(now))
  }

  predicate PruneDue(c: Config, t: Table, now: real) {
    |t.buckets| >= c.max || t.lastPrune == Never || now - t.lastPrune.time >= 10.0
  }

  /** The table a source not in it finds. */
  function Cleared(c: Config, t: Table, now: real): Table
    requires c.rate != 0.0
  {
    if PruneDue(c, t, now) then Pruned(c, t, now) else t
  }

  /** A new source is turned away while the table is full of active ones. */
  predicate Full(c: Config, t: Table, src: Source, now: real)
    requires c.rate != 0.0
  {
    src !in t.buckets && |Cleared(c, t, now).buckets| >= c.max
  }

  /** sourceLimiter.allow */
  function Step(c: Config, t: Table, src: Source, now: real): (Table, bool)
    requires c.rate != 0.0
  {
    if src in t.buckets then
      var (b, ok) := Spend(c, t.buckets[src], now);
      (t.(buckets := t.buckets[src := b]), ok)
    else
      var t' := Cleared(c, t, now);
      if |t'.buckets| >= c.max then (t', false)
      else
        var (b, ok) := Spend(c, Bucket(c.burst, now), now);
        (t'.(buckets := t'.buckets[src := b]), ok)
  }

  /** A source is turned away for want of room exactly when it is not in the table and as
      many others as the table takes have been active within burst / rate. */
  lemma {:induction false} FullIff(c: Config, t: Table, src: Source, now: real)
    requires c.rate != 0.0
    ensures Full(c, t, src, now) <==>
      src !in t.buckets && |set s | s in t.buckets && now - t.buckets[s].last < c.burst / c.rate| >= c.max
  {
    var active := set s | s in t.buckets && now - t.buckets[s].last < c.burst / c.rate;
    assert Pruned(c, t, now).buckets.Keys == active;
    if |t.buckets| < c.max {
      SmallerSet(active, t.buckets.Keys);
      SmallerSet(Cleared(c, t, now).buckets.Keys, t.buckets.Keys);
    }
  }

  // ---- levels: what a source could spend ----

  /** The tokens src would have at a time; a source not in the table has a full bucket. */
  function Level(c: Config, t: Table, src: Source, at: real): real {
    if src in t.buckets then Refill(c, t.buckets[src], at) else c.burst
  }

  ghost predicate Valid(c: Config, t: Table, now: real) {
    |t.buckets| <= c.max &&
    forall s :: s in t.buckets ==> 0.0 <= t.buckets[s].tokens <= c.burst && t.buckets[s].last <= now
  }

  lemma {:induction false} EarnedAdds(c: Config, a: real, b: real, d: real)
    ensures Earned(c, a, d) == Earned(c, a, b) + Earned(c, b, d)
  {
  }

  lemma {:induction false} EarnedNothing(c: Config, now: real)
    ensures Earned(c, now, now) == 0.0
  {
  }

  lemma {:induction false} EarnedGrows(c: Config, from: real, to: real)
    requires ConfigOk(c) && from <= to
    ensures Earned(c, from, to) >= 0.0
  {
  }

  /** Refilling in two steps is refilling in one. */
  lemma {:induction false} RefillTwice(c: Config, b: Bucket, now: real, at: real)
    requires ConfigOk(c) && b.last <= now <= at
    ensures Refill(c, b, at) == Min(c.burst, Refill(c, b, now) + Earned(c, now, at))
  {
    EarnedAdds(c, b.last, now, at);
    EarnedGrows(c, now, at);
  }

  lemma {:induction false} FullInTime(c: Config, from: real, to: real)
    requires ConfigOk(c) && to - from >= c.burst / c.rate
    ensures Earned(c, from, to) >= c.burst
  {
    var q := c.burst / c.rate;
    assert q * c.rate == c.burst;
    EarnedGrows(c, from + q, to);
    EarnedAdds(c, from, from + q, to);
    assert Earned(c, from, from + q) == (from + q - from) * c.rate == q * c.rate;
  }

  /** A bucket old enough to be forgotten is full, now and later. */
  lemma {:induction false} ForgottenIsFull(c: Config, b: Bucket, now: real, at: real)
    requires ConfigOk(c) && b.tokens >= 0.0 && b.last <= now <= at && Refilled(c, b, now)
    ensures Refill(c, b, at) == c.burst
  {
    FullInTime(c, b.last, at);
  }

  /** Pruning changes no level. */
  lemma {:induction false} ClearedKeepsLevels(c: Config, t: Table, src: Source, now: real, at: real)
    requires ConfigOk(c) && Valid(c, t, now) && now <= at
    ensures Level(c, Cleared(c, t, now), src, at) == Level(c, t, src, at)
  {
    if src in t.buckets && Refilled(c, t.buckets[src], now) {
      ForgottenIsFull(c, t.buckets[src], now, at);
    }
  }

  lemma {:induction false} SmallerMap(a: map<Source, Bucket>, b: map<Source, Bucket>)
    requires a.Keys <= b.Keys
    ensures |a| <= |b|
  {
    SmallerSet(a.Keys, b.Keys);
    assert |a.Keys| == |a| && |b.Keys| == |b|;
  }

  lemma {:induction false} SmallerSet(a: set<Source>, b: set<Source>)
    requires a <= b
    ensures |a| <= |b|
  {
    assert b == a + (b - a);
    assert |b| == |a| + |b - a|;
  }

  lemma {:induction false} ClearedValid(c: Config, t: Table, now: real)
    requires ConfigOk(c) && Valid(c, t, now)
    ensures Valid(c, Cleared(c, t, now), now)
  {
    SmallerMap(Cleared(c, t, now).buckets, t.buckets);
  }

  lemma {:induction false} OneMore(m: map<Source, Bucket>, s: Source, b: Bucket)
    ensures |m[s := b]| <= |m| + 1
  {
    assert m[s := b].Keys == m.Keys + {s};
    assert |m.Keys| == |m| && |m[s := b].Keys| == |m[s := b]|;
  }

  lemma {:induction false} SpendKeeps(c: Config, b: Bucket, now: real)
    requires ConfigOk(c) && 0.0 <= b.tokens <= c.burst && b.last <= now
    ensures var b' := Spend(c, b, now).0; 0.0 <= b'.tokens <= c.burst && b'.last == now
  {
    var tokens := Refill(c, b, now);
    EarnedGrows(c, b.last, now);
    assert 0.0 <= tokens <= c.burst;
    assert Spend(c, b, now).0 == Bucket(if tokens < 1.0 then tokens else tokens - 1.0, now);
  }

  /** The table stays valid, and so within its bound. */
  lemma {:induction false} StepValid(c: Config, t: Table, src: Source, now: real)
    requires ConfigOk(c) && Valid(c, t, now)
    ensures Valid(c, Step(c, t, src, now).0, now)
  {
    if src in t.buckets {
      SpendKeeps(c, t.buckets[src], now);
      var m := t.buckets[src := Spend(c, t.buckets[src], now).0];
      assert m.Keys == t.buckets.Keys;
      SmallerMap(m, t.buckets);
    } else {
      ClearedValid(c, t, now);
      SpendKeeps(c, Bucket(c.burst, now), now);
      var u := Cleared(c, t, now).buckets;
      var b := Spend(c, Bucket(c.burst, now), now).0;
      assert |u[src := b]| <= |u| + 1 by { OneMore(u, src, b); }
    }
  }

  /** What one call does to every level: the caller is let through exactly when
      it has a whole token, pays it, and nobody else is affected. */
  lemma {:induction false} StepLevels(c: Config, t: Table, src: Source, now: real, other: Source, at: real)
    requires ConfigOk(c) && Valid(c, t, now) && now <= at
    ensures var (t', ok) := Step(c, t, src, now);
      if Full(c, t, src, now) then !ok && Level(c, t', other, at) == Level(c, t, other, at)
      else
        (ok <==> Level(c, t, src, now) >= 1.0) &&
        Level(c, t', other, at) ==
          if other == src then Min(c.burst, Level(c, t, src, now) - (if ok then 1.0 else 0.0) + Earned(c, now, at))
          else Level(c, t, other, at)
  {
    EarnedNothing(c, now);
    ClearedKeepsLevels(c, t, other, now, at);
    if src !in t.buckets {
      ClearedKeepsLevels(c, t, src, now, now);
    }
  }

  // ---- whole runs ----

  datatype Arrival = Arrival(src: Source, at: real)

  ghost predicate Ordered(es: seq<Arrival>, start: real, end: real) {
    start <= end && (forall i :: 0 <= i < |es| ==> start <= es[i].at <= end) &&
    forall i, j :: 0 <= i < j < |es| ==> es[i].at <= es[j].at
  }

  /** The table after a run. */
  function Run(c: Config, t: Table, es: seq<Arrival>): Table
    requires c.rate != 0.0
    decreases |es|
  {
    if es == [] then t else Run(c, Step(c, t, es[0].src, es[0].at).0, es[1..])
  }

  /** How many datagrams of src a run lets through. */
  function Passed(c: Config, t: Table, es: seq<Arrival>, src: Source): nat
    requires c.rate != 0.0
    decreases |es|
  {
    if es == [] then 0
    else
      var (t', ok) := Step(c, t, es[0].src, es[0].at);
      (if ok && es[0].src == src then 1 else 0) + Passed(c, t', es[1..], src)
  }

  lemma {:induction false} TailOrdered(es: seq<Arrival>, start: real, end: real)
    requires Ordered(es, start, end) && es != []
    ensures Ordered(es[1..], es[0].at, end)
  {
  }

  lemma {:induction false} ValidLater(c: Config, t: Table, now: real, later: real)
    requires Valid(c, t, now) && now <= later
    ensures Valid(c, t, later)
  {
  }

  lemma {:induction false} LevelGrows(c: Config, t: Table, src: Source, now: real, at: real)
    requires ConfigOk(c) && Valid(c, t, now) && now <= at
    ensures 0.0 <= Level(c, t, src, now) <= c.burst
    ensures Level(c, t, src, at) <= Level(c, t, src, now) + Earned(c, now, at)
  {
    var earned := Earned(c, now, at);
    assert earned >= 0.0 by { EarnedGrows(c, now, at); }
    if src in t.buckets {
      var b := t.buckets[src];
      assert Level(c, t, src, at) == Min(c.burst, Level(c, t, src, now) + earned) by { RefillTwice(c, b, now, at); }
      assert Earned(c, b.last, now) >= 0.0 by { EarnedGrows(c, b.last, now); }
    } else {
      assert Level(c, t, src, at) == Level(c, t, src, now) == c.burst;
    }
  }

  /** What a run lets through is paid for by the level it started from and the
      time it took. */
  lemma {:induction false} PassedIsPaid(c: Config, t: Table, es: seq<Arrival>, src: Source, start: real, end: real)
    requires ConfigOk(c) && Valid(c, t, start) && Ordered(es, start, end)
    ensures Passed(c, t, es, src) as real <= Level(c, t, src, start) + Earned(c, start, end)
    decreases |es|
  {
    if es == [] {
      assert Earned(c, start, end) >= 0.0 by { EarnedGrows(c, start, end); }
      LevelGrows(c, t, src, start, start);
    } else {
      var e := es[0];
      var (t', ok) := Step(c, t, e.src, e.at);
      ValidLater(c, t, start, e.at);
      assert Valid(c, t', e.at) by { StepValid(c, t, e.src, e.at); }
      TailOrdered(es, start, end);
      PassedIsPaid(c, t', es[1..], src, e.at, end);
      StepPays(c, t, e.src, e.at, src);
      LevelGrows(c, t, src, start, e.at);
      EarnedAdds(c, start, e.at, end);
      Total(if ok && e.src == src then 1 else 0, Passed(c, t', es[1..], src),
            Level(c, t', src, e.at), Level(c, t, src, e.at), Level(c, t, src, start),
            Earned(c, start, e.at), Earned(c, e.at, end));
    }
  }

  lemma {:induction false} Total(paid: nat, more: nat, after: real, at: real, first: real, earned: real, left: real)
    requires more as real <= after + left && after <= at - paid as real && at <= first + earned
    ensures (paid + more) as real <= first + (earned + left)
  {
    assert (paid + more) as real == paid as real + more as real;
  }

  lemma {:induction false} StepPays(c: Config, t: Table, src: Source, now: real, other: Source)
    requires ConfigOk(c) && Valid(c, t, now)
    ensures var (t', ok) := Step(c, t, src, now);
      Level(c, t', other, now) <= Level(c, t, other, now) - (if ok && src == other then 1 else 0) as real
  {
    StepLevels(c, t, src, now, other, now);
  }

  lemma {:induction false} RunValid(c: Config, t: Table, es: seq<Arrival>, start: real, end: real)
    requires ConfigOk(c) && Valid(c, t, start) && Ordered(es, start, end)
    ensures Valid(c, Run(c, t, es), end)
    decreases |es|
  {
    if es == [] {
      ValidLater(c, t, start, end);
    } else {
      ValidLater(c, t, start, es[0].at);
      StepValid(c, t, es[0].src, es[0].at);
      TailOrdered(es, start, end);
      RunValid(c, Step(c, t, es[0].src, es[0].at).0, es[1..], es[0].at, end);
    }
  }

  /** After any run, in any interval that follows, one source gets at most
      burst + rate * length datagrams through, and the table never outgrows max. */
  lemma {:induction false} RateBound(c: Config, before: seq<Arrival>, during: seq<Arrival>, src: Source,
                                     origin: real, start: real, end: real)
    requires ConfigOk(c) && Ordered(before, origin, start) && Ordered(during, start, end)
    ensures var t := Run(c, Table(map[], Never), before);
      |t.buckets| <= c.max && Passed(c, t, during, src) as real <= c.burst + Earned(c, start, end)
  {
    RunValid(c, Table(map[], Never), before, origin, start);
    var t := Run(c, Table(map[], Never), before);
    PassedIsPaid(c, t, during, src, start, end);
    LevelGrows(c, t, src, start, start);
  }

  // ---- a limiter that never forgets ----

  /** The reference: an unbounded table, never pruned. */
  function RefStep(c: Config, m: map<Source, Bucket>, src: Source, now: real): (map<Source, Bucket>, bool) {
    var (b, ok) := Spend(c, if src in m then m[src] else Bucket(c.burst, now), now);
    (m[src := b], ok)
  }

  ghost predicate SameLevels(c: Config, t: Table, m: map<Source, Bucket>, now: real) {
    forall s: Source, at: real :: now <= at ==> Level(c, t, s, at) == Level(c, Table(m, Never), s, at)
  }

  ghost predicate RefValid(c: Config, m: map<Source, Bucket>, now: real) {
    forall s :: s in m ==> 0.0 <= m[s].tokens <= c.burst && m[s].last <= now
  }

  /** No arrival of the run is turned away for want of room. */
  ghost predicate NeverFull(c: Config, t: Table, es: seq<Arrival>)
    requires c.rate != 0.0
    decreases |es|
  {
    es == [] || (!Full(c, t, es[0].src, es[0].at) &&
                 NeverFull(c, Step(c, t, es[0].src, es[0].at).0, es[1..]))
  }

  function Answers(c: Config, t: Table, es: seq<Arrival>): seq<bool>
    requires c.rate != 0.0
    decreases |es|
  {
    if es == [] then []
    else [Step(c, t, es[0].src, es[0].at).1] + Answers(c, Step(c, t, es[0].src, es[0].at).0, es[1..])
  }

  function RefAnswers(c: Config, m: map<Source, Bucket>, es: seq<Arrival>): seq<bool>
    decreases |es|
  {
    if es == [] then []
    else [RefStep(c, m, es[0].src, es[0].at).1] + RefAnswers(c, RefStep(c, m, es[0].src, es[0].at).0, es[1..])
  }

  lemma {:induction false} RefLevels(c: Config, m: map<Source, Bucket>, src: Source, now: real, other: Source, at: real)
    requires ConfigOk(c) && RefValid(c, m, now) && now <= at
    ensures var (m', ok) := RefStep(c, m, src, now);
      (ok <==> Level(c, Table(m, Never), src, now) >= 1.0) &&
      Level(c, Table(m', Never), other, at) ==
        if other == src then
          Min(c.burst, Level(c, Table(m, Never), src, now) - (if ok then 1.0 else 0.0) + Earned(c, now, at))
        else Level(c, Table(m, Never), other, at)
  {
    EarnedNothing(c, now);
  }

  lemma {:induction false} RefStepValid(c: Config, m: map<Source, Bucket>, src: Source, now: real)
    requires ConfigOk(c) && RefValid(c, m, now)
    ensures RefValid(c, RefStep(c, m, src, now).0, now)
  {
    if src in m { EarnedGrows(c, m[src].last, now); }
  }

  lemma {:induction false} StepsAgree(c: Config, t: Table, m: map<Source, Bucket>, src: Source, now: real)
    requires ConfigOk(c) && Valid(c, t, now) && RefValid(c, m, now) && SameLevels(c, t, m, now)
    requires !Full(c, t, src, now)
    ensures Step(c, t, src, now).1 == RefStep(c, m, src, now).1
    ensures SameLevels(c, Step(c, t, src, now).0, RefStep(c, m, src, now).0, now)
  {
    StepLevels(c, t, src, now, src, now);
    RefLevels(c, m, src, now, src, now);
    forall s: Source, at: real | now <= at
      ensures Level(c, Step(c, t, src, now).0, s, at) == Level(c, Table(RefStep(c, m, src, now).0, Never), s, at)
    {
      StepLevels(c, t, src, now, s, at);
      RefLevels(c, m, src, now, s, at);
    }
  }

  /** While it has room, the limiter that forgets answers every run exactly as
      one that never forgets. */
  lemma {:induction false} ForgettingUnobservable(c: Config, t: Table, m: map<Source, Bucket>, es: seq<Arrival>,
                                                  start: real, end: real)
    requires ConfigOk(c) && Valid(c, t, start) && RefValid(c, m, start) && SameLevels(c, t, m, start)
    requires Ordered(es, start, end) && NeverFull(c, t, es)
    ensures Answers(c, t, es) == RefAnswers(c, m, es)
    decreases |es|
  {
    if es != [] {
      var e := es[0];
      ValidLater(c, t, start, e.at);
      StepsAgree(c, t, m, e.src, e.at);
      StepValid(c, t, e.src, e.at);
      RefStepValid(c, m, e.src, e.at);
      TailOrdered(es, start, end);
      ForgettingUnobservable(c, Step(c, t, e.src, e.at).0, RefStep(c, m, e.src, e.at).0, es[1..], e.at, end);
    }
  }

  lemma {:induction false} FreshLimitersAgree(c: Config, es: seq<Arrival>, start: real, end: real)
    requires ConfigOk(c) && Ordered(es, start, end) && NeverFull(c, Table(map[], Never), es)
    ensures Answers(c, Table(map[], Never), es) == RefAnswers(c, map[], es)
  {
    ForgettingUnobservable(c, Table(map[], Never), map[], es, start, end);
  }

  /** The limiter object. */
  class SourceLimiter {
    const config: Config
    var buckets: map<Source, Bucket>
    var lastPrune: LastPrune

    constructor (config: Config)
      ensures this.config == config && buckets == map[] && lastPrune == Never
    {
      this.config, buckets, lastPrune := config, map[], Never;
    }

    method Prune(now: real)
      requires config.rate != 0.0
      modifies this
      ensures Table(buckets, lastPrune) == Pruned(config, Table(old(buckets), old(lastPrune)), now)
    {
      var todo := buckets.Keys;
      while todo != {}
        invariant todo <= buckets.Keys <= old(buckets).Keys
        invariant forall s :: s in buckets ==> buckets[s] == old(buckets)[s]
        invariant forall s :: s in old(buckets) && s !in todo ==>
          (s in buckets <==> !Refilled(config, old(buckets)[s], now))
        decreases todo
      {
        var s :| s in todo;
        todo := todo - {s};
        if Refilled(config, buckets[s], now) { buckets := buckets - {s}; }
      }
      lastPrune := At(now);
    }

    method Allow(src: Source, now: real) returns (ok: bool)
      requires config.rate != 0.0
      modifies this
      ensures (Table(buckets, lastPrune), ok) == Step(config, Table(old(buckets), old(lastPrune)), src, now)
    {
      ghost var cleared := buckets;
      if src !in buckets {
        if PruneDue(config, Table(buckets, lastPrune), now) { Prune(now); }
        assert Table(buckets, lastPrune) == Cleared(config, Table(old(buckets), old(lastPrune)), now);
        if |buckets| >= config.max { return false; }
        cleared := buckets;
        buckets := buckets[src := Bucket(config.burst, now)];
      }
      var (b, allowed) := Spend(config, buckets[src], now);
      buckets := buckets[src := b];
      assert buckets == cleared[src := b];
      ok := allowed;
    }
  }
}
