/** Sending of indicators (offer and flush of cmd/fmsgd/indicators.go): at most one
    non-clearing datagram per interval and key, holding back the latest change. */
module Coalescing {
  import opened Prelude
  import opened Datagrams

  type Key = string

  /** A datagram and the domains it goes to. */
  datatype Change = Change(datagram: Datagram, domains: seq<string>)

  /** `lastSent` is absent until a non-clearing datagram went out. */
  datatype Pending = Pending(lastSent: Option<int>, held: Option<Change>)

  predicate Elapsed(interval: int, lastSent: Option<int>, now: int) {
    lastSent.None? || now - lastSent.value >= interval
  }

  // ---- one key, one event ----

  /** offer: the new state, and whether to send at once. */
  function Offered(interval: int, p: Pending, c: Change, now: int): (Pending, bool) {
    if IsClear(c.datagram) then (p.(held := None), true)
    else if !Elapsed(interval, p.lastSent, now) then (p.(held := Some(c)), false)
    else (Pending(Some(now), None), true)
  }

  datatype Flush = Keep | Forget | Release(change: Change)

  function Flushed(interval: int, p: Pending, now: int): Flush {
    if !Elapsed(interval, p.lastSent, now) then Keep
    else if p.held.Some? then Release(p.held.value)
    else Forget
  }

  // ---- the service ----

  datatype Event = Offer(key: Key, change: Change, at: int) | Tick(at: int)

  function PendingOf(m: map<Key, Pending>, k: Key): Pending {
    if k in m then m[k] else Pending(None, None)
  }

  function Ticked(interval: int, m: map<Key, Pending>, now: int): map<Key, Pending> {
    map k | k in m && Flushed(interval, m[k], now) != Forget ::
      if Flushed(interval, m[k], now).Release? then Pending(Some(now), None) else m[k]
  }

  function Due(interval: int, m: map<Key, Pending>, now: int): map<Key, Change> {
    map k | k in m && Flushed(interval, m[k], now).Release? :: Flushed(interval, m[k], now).change
  }

  function After(interval: int, m: map<Key, Pending>, e: Event): map<Key, Pending> {
    match e
    case Offer(k, c, now) => m[k := Offered(interval, PendingOf(m, k), c, now).0]
    case Tick(now) => Ticked(interval, m, now)
  }

  /** What the event decides to send for key k. */
  function Decision(interval: int, m: map<Key, Pending>, e: Event, k: Key): Option<Change> {
    match e
    case Offer(key, c, now) =>
      if key == k && Offered(interval, PendingOf(m, k), c, now).1 then Some(c) else None
    case Tick(now) =>
      if k in Due(interval, m, now) then Some(Due(interval, m, now)[k]) else None
  }

  // ---- whole runs ----

  datatype Sent = Sent(change: Change, at: int)

  predicate Ordered(es: seq<Event>) { forall i, j :: 0 <= i < j < |es| ==> es[i].at <= es[j].at }

  function Run(interval: int, es: seq<Event>): map<Key, Pending> {
    if es == [] then map[] else After(interval, Run(interval, es[..|es| - 1]), es[|es| - 1])
  }

  /** Every decision to send for k, in order. */
  function Log(interval: int, es: seq<Event>, k: Key): seq<Sent> {
    if es == [] then []
    else Logged(interval, Run(interval, es[..|es| - 1]), Log(interval, es[..|es| - 1], k), es[|es| - 1], k)
  }

  function Logged(interval: int, m: map<Key, Pending>, log: seq<Sent>, e: Event, k: Key): seq<Sent> {
    match Decision(interval, m, e, k)
    case Some(c) => log + [Sent(c, e.at)]
    case None => log
  }

  /** The last change offered for k. */
  function LastOffer(es: seq<Event>, k: Key): Option<Change> {
    if es == [] then None else Latest(LastOffer(es[..|es| - 1], k), es[|es| - 1], k)
  }

  function Latest(last: Option<Change>, e: Event, k: Key): Option<Change> {
    if e.Offer? && e.key == k then Some(e.change) else last
  }

  predicate Loud(s: Sent) { !IsClear(s.change.datagram) }

  /** When the last non-clearing datagram of a log was sent. */
  function LastLoud(log: seq<Sent>): Option<int> {
    if log == [] then None
    else if Loud(log[|log| - 1]) then Some(log[|log| - 1].at)
    else LastLoud(log[..|log| - 1])
  }

  /** Non-clearing datagrams are at least an interval apart. */
  predicate Paced(interval: int, log: seq<Sent>) {
    forall i, j :: 0 <= i < j < |log| && Loud(log[i]) && Loud(log[j]) ==> log[j].at - log[i].at >= interval
  }

  ghost predicate InOrder(log: seq<Sent>) { forall a, b :: 0 <= a < b < |log| ==> log[a].at <= log[b].at }

  /** The last datagram sent is the last one offered. */
  predicate Settled(log: seq<Sent>, last: Option<Change>) {
    if last.None? then log == [] else log != [] && log[|log| - 1].change == last.value
  }

  /** What the pending state of k knows of the whole run. */
  ghost predicate Knows(interval: int, p: Pending, log: seq<Sent>, last: Option<Change>, now: int) {
    Paced(interval, log) &&
    (forall i :: 0 <= i < |log| ==> log[i].at <= now) &&
    (if p.lastSent.Some? then LastLoud(log) == p.lastSent else Elapsed(interval, LastLoud(log), now)) &&
    (if p.held.Some? then p.lastSent.Some? && p.held == last && !IsClear(p.held.value.datagram)
     else Settled(log, last))
  }

  lemma {:induction false} LastLoudIsLatest(log: seq<Sent>, i: nat)
    requires i < |log| && Loud(log[i]) && InOrder(log)
    ensures LastLoud(log).Some? && log[i].at <= LastLoud(log).value
  {
    if !Loud(log[|log| - 1]) {
      LastLoudIsLatest(log[..|log| - 1], i);
    }
  }

  /** A datagram sent an interval after the last keeps the pace. */
  lemma {:induction false} PacedSnoc(interval: int, log: seq<Sent>, s: Sent)
    requires Paced(interval, log) && InOrder(log) && (Loud(s) ==> Elapsed(interval, LastLoud(log), s.at))
    ensures Paced(interval, log + [s])
  {
    forall i | 0 <= i < |log| && Loud(log[i]) && Loud(s) ensures s.at - log[i].at >= interval {
      LastLoudIsLatest(log, i);
    }
  }

  lemma {:induction false} LastLoudSnoc(log: seq<Sent>, s: Sent)
    ensures LastLoud(log + [s]) == if Loud(s) then Some(s.at) else LastLoud(log)
  {
    assert (log + [s])[..|log|] == log;
  }

  lemma {:induction false} OfferKeeps(interval: int, p: Pending, log: seq<Sent>, last: Option<Change>, c: Change,
                                      now: int)
    requires interval > 0 && InOrder(log) && Knows(interval, p, log, last, now)
    ensures var (p', send) := Offered(interval, p, c, now);
      var log' := if send then log + [Sent(c, now)] else log;
      InOrder(log') && Knows(interval, p', log', Some(c), now)
  {
    var (p', send) := Offered(interval, p, c, now);
    if send {
      PacedIfElapsed(interval, p, log, c, now);
      LastLoudSnoc(log, Sent(c, now));
      assert InOrder(log + [Sent(c, now)]);
    }
  }

  lemma {:induction false} PacedIfElapsed(interval: int, p: Pending, log: seq<Sent>, c: Change, now: int)
    requires Paced(interval, log) && InOrder(log)
    requires if p.lastSent.Some? then LastLoud(log) == p.lastSent else Elapsed(interval, LastLoud(log), now)
    ensures IsClear(c.datagram) || Elapsed(interval, p.lastSent, now) ==> Paced(interval, log + [Sent(c, now)])
  {
    if IsClear(c.datagram) || Elapsed(interval, p.lastSent, now) {
      PacedSnoc(interval, log, Sent(c, now));
    }
  }

  lemma {:induction false} TickKeeps(interval: int, p: Pending, log: seq<Sent>, last: Option<Change>, now: int)
    requires interval > 0 && InOrder(log) && Knows(interval, p, log, last, now)
    ensures match Flushed(interval, p, now)
      case Keep => true
      case Forget => Knows(interval, Pending(None, None), log, last, now)
      case Release(c) =>
        last == Some(c) && InOrder(log + [Sent(c, now)]) &&
        Knows(interval, Pending(Some(now), None), log + [Sent(c, now)], last, now)
  {
    match Flushed(interval, p, now)
    case Keep =>
    case Forget =>
    case Release(c) =>
      PacedIfElapsed(interval, p, log, c, now);
      LastLoudSnoc(log, Sent(c, now));
  }

  lemma {:induction false} EventKeeps(interval: int, m: map<Key, Pending>, log: seq<Sent>, last: Option<Change>,
                                      e: Event, k: Key)
    requires interval > 0 && InOrder(log) && Knows(interval, PendingOf(m, k), log, last, e.at)
    ensures var log' := Logged(interval, m, log, e, k);
      InOrder(log') && Knows(interval, PendingOf(After(interval, m, e), k), log', Latest(last, e, k), e.at)
  {
    match e
    case Offer(key, c, now) =>
      if key == k { OfferKeeps(interval, PendingOf(m, k), log, last, c, now); }
    case Tick(now) =>
      TickKeeps(interval, PendingOf(m, k), log, last, now);
  }

  lemma {:induction false} KnowsLater(interval: int, p: Pending, log: seq<Sent>, last: Option<Change>, now: int,
                                      later: int)
    requires Knows(interval, p, log, last, now) && now <= later
    ensures Knows(interval, p, log, last, later)
  {
  }

  lemma {:induction false} RunKnows(interval: int, es: seq<Event>, k: Key, now: int)
    requires interval > 0 && Ordered(es) && (es != [] ==> es[|es| - 1].at <= now)
    ensures InOrder(Log(interval, es, k))
    ensures Knows(interval, PendingOf(Run(interval, es), k), Log(interval, es, k), LastOffer(es, k), now)
    decreases |es|
  {
    if es != [] {
      var init, e := es[..|es| - 1], es[|es| - 1];
      RunKnows(interval, init, k, e.at);
      EventKeeps(interval, Run(interval, init), Log(interval, init, k), LastOffer(init, k), e, k);
      KnowsLater(interval, PendingOf(Run(interval, es), k), Log(interval, es, k), LastOffer(es, k), e.at, now);
    }
  }

  /** Over every run in time order, forgetting included, the non-clearing
      datagrams decided on for a key are at least the interval apart. */
  lemma {:induction false} SendsArePaced(interval: int, es: seq<Event>, k: Key)
    requires interval > 0 && Ordered(es)
    ensures Paced(interval, Log(interval, es, k))
  {
    RunKnows(interval, es, k, if es == [] then 0 else es[|es| - 1].at);
  }

  /** A held change goes out only if nothing was offered since. */
  lemma {:induction false} ReleasedIsLatest(interval: int, es: seq<Event>, k: Key, now: int)
    requires interval > 0 && Ordered(es) && (es != [] ==> es[|es| - 1].at <= now)
    ensures var d := Decision(interval, Run(interval, es), Tick(now), k); d.Some? ==> d == LastOffer(es, k)
  {
    RunKnows(interval, es, k, now);
    TickKeeps(interval, PendingOf(Run(interval, es), k), Log(interval, es, k), LastOffer(es, k), now);
  }

  lemma {:induction false} OrderedPrefix(a: seq<Event>, b: seq<Event>)
    requires Ordered(a + b)
    ensures Ordered(a) && (a != [] && b != [] ==> a[|a| - 1].at <= b[0].at)
  {
    forall i, j | 0 <= i < j < |a| ensures a[i].at <= a[j].at {
      assert (a + b)[i] == a[i] && (a + b)[j] == a[j];
    }
    if a != [] && b != [] {
      assert (a + b)[|a| - 1] == a[|a| - 1] && (a + b)[|a|] == b[0];
    }
  }

  lemma {:induction false} RunSnoc(interval: int, es: seq<Event>, e: Event, k: Key)
    ensures Run(interval, es + [e]) == After(interval, Run(interval, es), e)
    ensures Log(interval, es + [e], k) == Logged(interval, Run(interval, es), Log(interval, es, k), e, k)
    ensures LastOffer(es + [e], k) == Latest(LastOffer(es, k), e, k)
  {
    assert (es + [e])[..|es|] == es;
  }

  /** Nothing is held for k and its last datagram is the last offer. */
  ghost predicate Quiet(interval: int, es: seq<Event>, k: Key) {
    PendingOf(Run(interval, es), k).held.None? && Settled(Log(interval, es, k), LastOffer(es, k))
  }

  lemma {:induction false} FlushQuiets(interval: int, es: seq<Event>, k: Key, now: int)
    requires interval > 0 && Ordered(es + [Tick(now)])
    requires Elapsed(interval, LastLoud(Log(interval, es, k)), now)
    ensures Quiet(interval, es + [Tick(now)], k) && LastOffer(es + [Tick(now)], k) == LastOffer(es, k)
  {
    OrderedPrefix(es, [Tick(now)]);
    RunKnows(interval, es, k, now);
    TickKeeps(interval, PendingOf(Run(interval, es), k), Log(interval, es, k), LastOffer(es, k), now);
    RunSnoc(interval, es, Tick(now), k);
  }

  lemma {:induction false} QuietStays(interval: int, es: seq<Event>, k: Key, now: int)
    requires Quiet(interval, es, k)
    ensures Quiet(interval, es + [Tick(now)], k) && Log(interval, es + [Tick(now)], k) == Log(interval, es, k)
    ensures LastOffer(es + [Tick(now)], k) == LastOffer(es, k)
  {
    RunSnoc(interval, es, Tick(now), k);
  }

  /** Once offers stop, one flush an interval after the last non-clearing
      datagram leaves the last datagram sent equal to the last offered, and every
      later flush sends nothing more. */
  lemma {:induction false} FlushSettles(interval: int, es: seq<Event>, k: Key, now: int, ticks: seq<int>)
    requires interval > 0 && Ordered(es + [Tick(now)])
    requires Elapsed(interval, LastLoud(Log(interval, es, k)), now)
    ensures var all := WithTicks(es + [Tick(now)], ticks);
      Quiet(interval, all, k) && LastOffer(all, k) == LastOffer(es, k) &&
      Log(interval, all, k) == Log(interval, es + [Tick(now)], k)
    decreases |ticks|
  {
    if ticks == [] {
      FlushQuiets(interval, es, k, now);
    } else {
      var init := ticks[..|ticks| - 1];
      FlushSettles(interval, es, k, now, init);
      QuietStays(interval, WithTicks(es + [Tick(now)], init), k, ticks[|ticks| - 1]);
    }
  }

  /** A run followed by flushes alone. */
  function WithTicks(es: seq<Event>, ticks: seq<int>): seq<Event> {
    if ticks == [] then es else WithTicks(es, ticks[..|ticks| - 1]) + [Tick(ticks[|ticks| - 1])]
  }

  /** The part of indicatorService that decides what to send and when. */
  class Coalescer {
    const interval: int
    var pending: map<Key, Pending>

    constructor (interval: int)
      ensures this.interval == interval && pending == map[]
    {
      this.interval, pending := interval, map[];
    }

    method OfferChange(key: Key, c: Change, now: int) returns (send: bool)
      modifies this
      ensures pending == After(interval, old(pending), Offer(key, c, now))
      ensures Decision(interval, old(pending), Offer(key, c, now), key) == if send then Some(c) else None
    {
      var p := PendingOf(pending, key);
      send := true;
      if IsClear(c.datagram) {
        p := p.(held := None);
      } else if p.lastSent.Some? && now - p.lastSent.value < interval {
        p := p.(held := Some(c));
        send := false;
      } else {
        p := Pending(Some(now), None);
      }
      pending := pending[key := p];
    }

    /** Releases every held change whose interval has passed and forgets idle keys. */
    method FlushDue(now: int) returns (due: map<Key, Change>)
      modifies this
      ensures pending == After(interval, old(pending), Tick(now))
      ensures due == Due(interval, old(pending), now)
    {
      due := map[];
      var todo := pending.Keys;
      while todo != {}
        invariant todo <= pending.Keys <= old(pending).Keys
        invariant forall k :: k in todo ==> pending[k] == old(pending)[k]
        invariant forall k :: k in pending && k !in todo ==>
          (k in Ticked(interval, old(pending), now) && pending[k] == Ticked(interval, old(pending), now)[k])
        invariant forall k :: k in Ticked(interval, old(pending), now) ==> k in pending
        invariant due.Keys <= old(pending).Keys - todo
        invariant forall k :: k in old(pending) && k !in todo ==>
          ((k in due <==> k in Due(interval, old(pending), now)) &&
           (k in due ==> due[k] == Due(interval, old(pending), now)[k]))
        decreases todo
      {
        var k :| k in todo;
        todo := todo - {k};
        var p := pending[k];
        if p.held.Some? {
          if Elapsed(interval, p.lastSent, now) {
            due := due[k := p.held.value];
            pending := pending[k := Pending(Some(now), None)];
          }
        } else if Elapsed(interval, p.lastSent, now) {
          pending := pending - {k};
        }
      }
    }
  }
}
