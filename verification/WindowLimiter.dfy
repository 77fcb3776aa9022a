/** The per-domain sending limit of cmd/fmsgd/indicators.go: at most n events per
    key in any sliding window, from a ring of each key's last n event times. */
module WindowLimit {
  type Key = string

  /** The n most recent event times; once full, `next` is the oldest. */
  datatype Ring = Ring(times: seq<int>, next: nat)

  predicate RingValid(n: nat, r: Ring) {
    0 < |r.times| <= n && r.next < |r.times| && (|r.times| < n ==> r.next == 0)
  }

  /** The ring's times, oldest first. */
  function Unroll(r: Ring): seq<int>
    requires r.next <= |r.times|
  {
    r.times[r.next..] + r.times[..r.next]
  }

  // ---- counting ----

  /** How many times of h lie in [lo, hi). */
  function Count(h: seq<int>, lo: int, hi: int): nat {
    if h == [] then 0
    else Count(h[..|h| - 1], lo, hi) + (if lo <= h[|h| - 1] < hi then 1 else 0)
  }

  /** Events of h still inside the window at now. */
  function Recent(h: seq<int>, now: int, window: int): nat { Count(h, now - window + 1, now + 1) }

  predicate Sorted(h: seq<int>) { forall i, j :: 0 <= i < j < |h| ==> h[i] <= h[j] }

  lemma {:induction false} CountSplit(a: seq<int>, b: seq<int>, lo: int, hi: int)
    ensures Count(a + b, lo, hi) == Count(a, lo, hi) + Count(b, lo, hi)
  {
    if b == [] {
      assert a + b == a;
    } else {
      assert (a + b)[..|a + b| - 1] == a + b[..|b| - 1];
      CountSplit(a, b[..|b| - 1], lo, hi);
    }
  }

  lemma {:induction false} CountAtMost(h: seq<int>, lo: int, hi: int)
    ensures Count(h, lo, hi) <= |h|
  {
    if h != [] { CountAtMost(h[..|h| - 1], lo, hi); }
  }

  lemma {:induction false} CountNone(h: seq<int>, lo: int, hi: int)
    requires forall i :: 0 <= i < |h| ==> h[i] < lo
    ensures Count(h, lo, hi) == 0
  {
    if h != [] { CountNone(h[..|h| - 1], lo, hi); }
  }

  lemma {:induction false} CountEvery(h: seq<int>, lo: int, hi: int)
    requires forall i :: 0 <= i < |h| ==> lo <= h[i] < hi
    ensures Count(h, lo, hi) == |h|
  {
    if h != [] { CountEvery(h[..|h| - 1], lo, hi); }
  }

  /** If the m-th time of a sorted history is too early, so are those before it,
      and only the rest can count. */
  lemma {:induction false} CountAfter(h: seq<int>, m: nat, lo: int, hi: int)
    requires Sorted(h) && m < |h| && h[m] < lo
    ensures Count(h, lo, hi) <= |h| - m - 1
  {
    var a, b := h[..m + 1], h[m + 1..];
    assert h == a + b;
    CountSplit(a, b, lo, hi);
    CountNone(a, lo, hi);
    CountAtMost(b, lo, hi);
  }

  /** In a sorted history that ends by now, fewer than n recent events means
      that the n-th last, if there is one, has left the window. */
  lemma {:induction false} FewRecent(h: seq<int>, n: nat, now: int, window: int)
    requires n > 0 && window > 0 && Sorted(h) && (h != [] ==> h[|h| - 1] <= now)
    ensures Recent(h, now, window) < n <==> |h| < n || now - h[|h| - n] >= window
  {
    var lo, hi := now - window + 1, now + 1;
    if |h| < n {
      CountAtMost(h, lo, hi);
    } else {
      var m := |h| - n;
      if h[m] < lo {
        CountAfter(h, m, lo, hi);
      } else {
        var a, b := h[..m], h[m..];
        assert h == a + b;
        CountSplit(a, b, lo, hi);
        CountEvery(b, lo, hi);
      }
    }
  }

  /** Events n apart in h are at least a window apart in time. */
  ghost predicate Spaced(h: seq<int>, n: nat, window: int) {
    forall i, j :: 0 <= i && j == i + n && j < |h| ==> h[j] - h[i] >= window
  }

  /** Then no window, wherever it starts, holds more than n of them. */
  lemma {:induction false} SpacedBounds(h: seq<int>, n: nat, window: int, start: int)
    requires n > 0 && window > 0 && Sorted(h) && Spaced(h, n, window)
    ensures Count(h, start, start + window) <= n
  {
    if |h| <= n {
      CountAtMost(h, start, start + window);
    } else {
      var last := h[|h| - 1];
      if start <= last < start + window {
        var m := |h| - 1 - n;
        assert last - h[m] >= window;
        CountAfter(h, m, start, start + window);
      } else {
        SpacedBounds(h[..|h| - 1], n, window, start);
      }
    }
  }

  // ---- one step ----

  function RingAllow(n: nat, window: int, r: Ring, now: int): (Ring, bool)
    requires n > 0 && (r == Ring([], 0) || RingValid(n, r))
  {
    if |r.times| < n then (Ring(r.times + [now], r.next), true)
    else if now - r.times[r.next] < window then (r, false)
    else (Ring(r.times[r.next := now], (r.next + 1) % n), true)
  }

  predicate AllValid(n: nat, keys: map<Key, Ring>) {
    n > 0 && forall k :: k in keys ==> RingValid(n, keys[k])
  }

  function RingOf(keys: map<Key, Ring>, k: Key): Ring {
    if k in keys then keys[k] else Ring([], 0)
  }

  function Latest(r: Ring): int
    requires r.next < |r.times|
  {
    r.times[(r.next + |r.times| - 1) % |r.times|]
  }

  /** prune forgets the keys with no event inside the window. */
  function Pruned(n: nat, window: int, keys: map<Key, Ring>, now: int): map<Key, Ring>
    requires AllValid(n, keys)
  {
    map k | k in keys && now - Latest(keys[k]) < window :: keys[k]
  }

  // ---- the ring and the full history of its key ----

  /** The ring holds the end of the history, and what it does not hold is either
      pushed out by n later events or outside the window for good. */
  ghost predicate Represents(n: nat, window: int, r: Ring, h: seq<int>, now: int) {
    (r == Ring([], 0) || RingValid(n, r)) &&
    Sorted(h) && (h != [] ==> h[|h| - 1] <= now) && Spaced(h, n, window) &&
    |r.times| <= |h| && Unroll(r) == h[|h| - |r.times|..] &&
    (|r.times| < n ==> forall i :: 0 <= i < |h| - |r.times| ==> now - h[i] >= window)
  }

  lemma {:induction false} RepresentsLater(n: nat, window: int, r: Ring, h: seq<int>, now: int, later: int)
    requires Represents(n, window, r, h, now) && now <= later
    ensures Represents(n, window, r, h, later)
  {
  }

  lemma {:induction false} HistoryGrows(n: nat, window: int, h: seq<int>, now: int)
    requires Sorted(h) && (h != [] ==> h[|h| - 1] <= now) && Spaced(h, n, window)
    requires n > 0 && (|h| < n || now - h[|h| - n] >= window)
    ensures Sorted(h + [now]) && Spaced(h + [now], n, window)
  {
  }

  lemma {:induction false} UnrollReplaced(n: nat, r: Ring, now: int)
    requires RingValid(n, r) && |r.times| == n
    ensures Unroll(Ring(r.times[r.next := now], (r.next + 1) % n)) == Unroll(r)[1..] + [now]
  {
    var t := r.times[r.next := now];
    NextModulo(r.next, n);
    if r.next + 1 < n {
      assert t[r.next + 1..] == r.times[r.next + 1..];
      assert t[..r.next + 1] == r.times[..r.next] + [now];
      assert Unroll(r)[1..] == r.times[r.next + 1..] + r.times[..r.next];
    } else {
      assert t == r.times[..r.next] + [now];
      assert Unroll(r)[1..] == r.times[..r.next];
      assert Unroll(Ring(t, 0)) == t;
    }
  }

  lemma {:induction false} NextModulo(next: nat, n: nat)
    requires next < n
    ensures (next + 1) % n == if next + 1 < n then next + 1 else 0
  {
  }

  /** The ring decides by the full history. */
  lemma {:induction false} RingDecides(n: nat, window: int, r: Ring, h: seq<int>, now: int)
    requires n > 0 && window > 0 && Represents(n, window, r, h, now)
    ensures RingAllow(n, window, r, now).1 <==> Recent(h, now, window) < n
    ensures RingAllow(n, window, r, now).1 <==> |h| < n || now - h[|h| - n] >= window
  {
    FewRecent(h, n, now, window);
    if |r.times| == n {
      assert Unroll(r)[0] == r.times[r.next];
    }
  }

  /** It goes on representing it: while it fills up, and once it is full. */
  lemma {:induction false} FillingKeeps(n: nat, window: int, r: Ring, h: seq<int>, now: int)
    requires n > 0 && window > 0 && Represents(n, window, r, h, now) && |r.times| < n
    ensures Represents(n, window, Ring(r.times + [now], r.next), h + [now], now)
  {
    assert Sorted(h + [now]) && Spaced(h + [now], n, window) by {
      RingDecides(n, window, r, h, now);
      HistoryGrows(n, window, h, now);
    }
    var r' := Ring(r.times + [now], r.next);
    assert Unroll(r') == (h + [now])[|h| - |r.times|..] by {
      assert Unroll(r) == r.times && Unroll(r') == r.times + [now];
      Longer(h, |h| - |r.times|, now);
    }
    assert forall i :: 0 <= i < |h| ==> (h + [now])[i] == h[i];
  }

  lemma {:induction false} Longer(h: seq<int>, i: nat, now: int)
    requires i <= |h|
    ensures (h + [now])[i..] == h[i..] + [now]
  {
  }

  lemma {:induction false} ReplacingKeeps(n: nat, window: int, r: Ring, h: seq<int>, now: int)
    requires n > 0 && window > 0 && Represents(n, window, r, h, now) && |r.times| == n
    requires now - r.times[r.next] >= window
    ensures var r' := Ring(r.times[r.next := now], (r.next + 1) % n);
      RingValid(n, r') && Represents(n, window, r', h + [now], now)
  {
    RingDecides(n, window, r, h, now);
    HistoryGrows(n, window, h, now);
    NextModulo(r.next, n);
    UnrollReplaced(n, r, now);
    assert (h + [now])[|h| + 1 - n..] == h[|h| - n..][1..] + [now];
  }

  lemma {:induction false} RingKeeps(n: nat, window: int, r: Ring, h: seq<int>, now: int)
    requires n > 0 && window > 0 && Represents(n, window, r, h, now)
    ensures var (r', ok) := RingAllow(n, window, r, now);
      RingValid(n, r') && Represents(n, window, r', if ok then h + [now] else h, now)
  {
    if |r.times| < n {
      FillingKeeps(n, window, r, h, now);
    } else if now - r.times[r.next] >= window {
      ReplacingKeeps(n, window, r, h, now);
    }
  }

  lemma {:induction false} LatestIsLast(n: nat, r: Ring)
    requires RingValid(n, r)
    ensures Latest(r) == Unroll(r)[|r.times| - 1]
  {
    var len := |r.times|;
    if r.next == 0 {
      assert (len - 1) % len == len - 1;
    } else {
      assert (r.next + len - 1) % len == r.next - 1;
    }
  }

  /** Forgetting a key is unobservable: the empty ring represents its history. */
  lemma {:induction false} ForgettingIsSafe(n: nat, window: int, r: Ring, h: seq<int>, now: int)
    requires n > 0 && window > 0 && RingValid(n, r) && Represents(n, window, r, h, now)
    requires now - Latest(r) >= window
    ensures Represents(n, window, Ring([], 0), h, now)
  {
    LatestIsLast(n, r);
    assert Latest(r) == h[|h| - |r.times|..][|r.times| - 1] == h[|h| - 1];
    assert h[|h|..] == [];
    forall i | 0 <= i < |h| ensures now - h[i] >= window {
      assert h[i] <= h[|h| - 1];
    }
  }

  // ---- whole runs ----

  datatype Event = Allow(key: Key, at: int) | Prune(at: int)

  predicate Ordered(es: seq<Event>) { forall i, j :: 0 <= i < j < |es| ==> es[i].at <= es[j].at }

  function AfterEvent(n: nat, window: int, keys: map<Key, Ring>, e: Event): (after: map<Key, Ring>)
    requires AllValid(n, keys)
    ensures AllValid(n, after)
  {
    match e
    case Allow(k, at) =>
      NextInRange(n, window, RingOf(keys, k), at);
      keys[k := RingAllow(n, window, RingOf(keys, k), at).0]
    case Prune(at) => Pruned(n, window, keys, at)
  }

  lemma {:induction false} NextInRange(n: nat, window: int, r: Ring, now: int)
    requires n > 0 && (r == Ring([], 0) || RingValid(n, r))
    ensures RingValid(n, RingAllow(n, window, r, now).0)
  {
  }

  /** The limiter after a run. */
  function Rings(n: nat, window: int, es: seq<Event>): (keys: map<Key, Ring>)
    requires n > 0
    ensures AllValid(n, keys)
  {
    if es == [] then map[]
    else
      var keys := Rings(n, window, es[..|es| - 1]);
      AfterEvent(n, window, keys, es[|es| - 1])
  }

  /** Whether the limiter lets an event of k at `at` through after a run. */
  predicate Allows(n: nat, window: int, es: seq<Event>, k: Key, at: int)
    requires n > 0
  {
    RingAllow(n, window, RingOf(Rings(n, window, es), k), at).1
  }

  /** The reference: every event of k it ever let through, judged by counting. */
  function History(n: nat, window: int, es: seq<Event>, k: Key): seq<int> {
    if es == [] then []
    else
      Remember(n, window, History(n, window, es[..|es| - 1], k), k, es[|es| - 1])
  }

  function Remember(n: nat, window: int, h: seq<int>, k: Key, e: Event): seq<int> {
    if e.Allow? && e.key == k && Recent(h, e.at, window) < n then h + [e.at] else h
  }

  lemma {:induction false} EventKeeps(n: nat, window: int, keys: map<Key, Ring>, h: seq<int>, k: Key, e: Event)
    requires AllValid(n, keys) && window > 0 && Represents(n, window, RingOf(keys, k), h, e.at)
    ensures Represents(n, window, RingOf(AfterEvent(n, window, keys, e), k), Remember(n, window, h, k, e), e.at)
  {
    match e
    case Allow(key, at) =>
      if key == k {
        RingDecides(n, window, RingOf(keys, k), h, at);
        RingKeeps(n, window, RingOf(keys, k), h, at);
      }
    case Prune(at) =>
      if k in keys && at - Latest(keys[k]) >= window {
        ForgettingIsSafe(n, window, keys[k], h, at);
      }
  }

  lemma {:induction false} RunRepresents(n: nat, window: int, es: seq<Event>, k: Key, now: int)
    requires n > 0 && window > 0 && Ordered(es) && (es != [] ==> es[|es| - 1].at <= now)
    ensures Represents(n, window, RingOf(Rings(n, window, es), k), History(n, window, es, k), now)
    decreases |es|
  {
    if es != [] {
      var init, e := es[..|es| - 1], es[|es| - 1];
      RunRepresents(n, window, init, k, e.at);
      EventKeeps(n, window, Rings(n, window, init), History(n, window, init, k), k, e);
      RepresentsLater(n, window, RingOf(Rings(n, window, es), k), History(n, window, es, k), e.at, now);
    }
  }

  /** After any run of events and prunes in time order, the limiter lets an event
      through exactly when fewer than n of the key's events that it ever let
      through lie in the window. Pruning does not show. */
  lemma {:induction false} LimiterIsExact(n: nat, window: int, es: seq<Event>, k: Key, at: int)
    requires n > 0 && window > 0 && Ordered(es) && (es != [] ==> es[|es| - 1].at <= at)
    ensures Allows(n, window, es, k, at) <==> Recent(History(n, window, es, k), at, window) < n
  {
    RunRepresents(n, window, es, k, at);
    RingDecides(n, window, RingOf(Rings(n, window, es), k), History(n, window, es, k), at);
  }

  /** No window of any run holds more than n events of one key. */
  lemma {:induction false} WindowNeverExceeded(n: nat, window: int, es: seq<Event>, k: Key, start: int)
    requires n > 0 && window > 0 && Ordered(es)
    ensures Count(History(n, window, es, k), start, start + window) <= n
  {
    var now := if es == [] then 0 else es[|es| - 1].at;
    RunRepresents(n, window, es, k, now);
    SpacedBounds(History(n, window, es, k), n, window, start);
  }

  /** The limiter object. */
  class WindowLimiter {
    const n: nat
    const window: int
    var keys: map<Key, Ring>

    constructor (n: nat, window: int)
      requires n > 0
      ensures this.n == n && this.window == window && keys == map[]
    {
      this.n, this.window, keys := n, window, map[];
    }

    method Allow(key: Key, now: int) returns (ok: bool)
      requires AllValid(n, keys)
      modifies this
      ensures AllValid(n, keys)
      ensures ok == RingAllow(n, window, RingOf(old(keys), key), now).1
      ensures keys == AfterEvent(n, window, old(keys), Event.Allow(key, now))
    {
      if key !in keys {
        assert [] + [now] == [now];
        keys := keys[key := Ring([now], 0)];
        return true;
      }
      var r := keys[key];
      if |r.times| < n {
        keys := keys[key := Ring(r.times + [now], r.next)];
        return true;
      }
      if now - r.times[r.next] < window {
        assert keys == keys[key := r];
        return false;
      }
      keys := keys[key := Ring(r.times[r.next := now], (r.next + 1) % n)];
      ok := true;
    }

    method Prune(now: int)
      requires AllValid(n, keys)
      modifies this
      ensures AllValid(n, keys) && keys == AfterEvent(n, window, old(keys), Event.Prune(now))
    {
      var todo := keys.Keys;
      while todo != {}
        invariant todo <= keys.Keys <= old(keys).Keys
        invariant forall k :: k in keys ==> keys[k] == old(keys)[k]
        invariant forall k :: k in old(keys) && k !in todo ==>
          (k in keys <==> now - Latest(old(keys)[k]) < window)
        decreases todo
      {
        var k :| k in todo;
        todo := todo - {k};
        if now - Latest(keys[k]) >= window {
          keys := keys - {k};
        }
      }
    }
  }
}
