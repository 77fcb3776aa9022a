/** Delivery units over time: they lock pending rows, talk to the other host and record
    what they learned, several at once (cmd/fmsgd/sender.go). What this does to
    one row over every run. */
module DeliveryRuns {
  import opened Prelude
  import opened Delivery

  /** A message being delivered, under the host's settings. */
  datatype Post = Post(fold: Text -> Text, config: Config, mail: Mail)

  /** A unit under way: the rows its queries hold, those among them it is to deliver,
      and when it began. */
  datatype Open = Open(unit: Unit, held: set<RowId>, locked: set<RowId>, at: real)

  datatype System = System(rows: Rows, open: map<nat, Open>)

  /** A unit begins; it records and commits, with the time it stamps on the rows; or
      its transaction is lost. */
  datatype Event =
    | Begin(key: nat, unit: Unit, at: real)
    | Finish(key: nat, net: Network, stamp: real, at: real)
    | Abort(key: nat, at: real)

  predicate Held(s: System, id: RowId) { exists k :: k in s.open && id in s.open[k].held }

  /** The rows a unit's queries range over: its table and batch, whatever the domain,
      and the notify row of its domain. */
  predicate InBatch(u: Unit, id: RowId) {
    match u
    case Original(_) => id.To?
    case AddTo(b, d) => (id.Added? && id.batch == b) || id == Notice(b, d)
  }

  /** The queries of lockPendingRecipients and lockPendingNotify: pending rows, skipping
      those another unit holds. */
  function Lockable(p: Post, s: System, u: Unit, now: real): set<RowId> {
    set id | id in s.rows && InBatch(u, id) && IsRow(p.mail, id) &&
             IsPending(p.config, s.rows[id], Age(p.mail, id), now) && !Held(s, id)
  }

  /** Of the rows held, those on the unit's domain, which it goes on with. */
  function Own(p: Post, u: Unit, held: set<RowId>): set<RowId> { set id | id in held && Mine(p.fold, u, id) }

  function UnitWrites(p: Post, o: Open, net: Network, id: RowId): seq<Outcome> {
    Writes(p.fold, p.mail, o.unit, o.locked, net, id)
  }

  /** The unit would update a row another one holds: it waits. */
  predicate Blocked(p: Post, s: System, k: nat, net: Network)
    requires k in s.open
  {
    exists id, j ::
      id in s.rows && j in s.open && j != k && id in s.open[j].held && UnitWrites(p, s.open[k], net, id) != []
  }

  function Step(p: Post, s: System, e: Event): System {
    match e
    case Begin(k, u, now) =>
      var held := Lockable(p, s, u, now);
      var locked := Own(p, u, held);
      if k in s.open || locked == {} then s else s.(open := s.open[k := Open(u, held, locked, now)])
    case Finish(k, net, stamp, _) =>
      if k !in s.open || Blocked(p, s, k, net) then s
      else
        System(Recorded(p.fold, p.mail, s.rows, s.open[k].unit, s.open[k].locked, net, stamp), s.open - {k})
    case Abort(k, _) => s.(open := s.open - {k})
  }

  function Run(p: Post, rows: Rows, es: seq<Event>): System {
    if es == [] then System(rows, map[]) else Step(p, Run(p, rows, es[..|es| - 1]), es[|es| - 1])
  }

  /** When the unit's message or batch was sent. */
  function SentAt(m: Mail, u: Unit): real {
    if u.AddTo? && u.batch < |m.batches| then m.batches[u.batch].time else m.sent
  }

  /** The clock does not go back: events are in order, no unit begins before what it
      sends was sent, and a unit stamps its rows between its lock and its commit. */
  ghost predicate Clocked(p: Post, rows: Rows, es: seq<Event>) {
    es == [] ||
    var init, e := es[..|es| - 1], es[|es| - 1];
    Clocked(p, rows, init) && (init != [] ==> init[|init| - 1].at <= e.at) &&
    (e.Begin? ==> SentAt(p.mail, e.unit) <= e.at) &&
    (e.Finish? && e.key in Run(p, rows, init).open ==> Run(p, rows, init).open[e.key].at <= e.stamp <= e.at)
  }

  function RecipientIds(m: Mail): set<RowId> {
    (set a | a in m.to :: To(a)) + (set b: nat, a | b < |m.batches| && a in m.batches[b].addTo :: Added(b, a))
  }

  /** The stored rows: every recipient of the message, and some notify rows. */
  ghost predicate RowsOf(m: Mail, rows: Rows) {
    RecipientIds(m) <= rows.Keys && forall id :: id in rows ==> IsRow(m, id)
  }

  /** Every address has an @, as parsed ones do. */
  ghost predicate PostOk(p: Post) {
    ConfigOk(p.config) && forall id :: IsRow(p.mail, id) && !id.Notice? ==> Domain(p.fold, id.addr).Some?
  }

  // ---- which rows a unit can reach ----

  /** The unit that delivers a row. */
  function UnitOf(p: Post, id: RowId): Unit {
    match id
    case To(a) => Original(DomainText(p, a))
    case Added(b, a) => AddTo(b, DomainText(p, a))
    case Notice(b, d) => AddTo(b, d)
  }

  function DomainText(p: Post, a: Text): Text {
    if Domain(p.fold, a).Some? then Domain(p.fold, a).value else []
  }

  /** Locking x lets its unit record for id: another row of the same table, with the
      same address up to case, whose unit lists id's spelling. */
  ghost predicate Disturbs(p: Post, x: RowId, id: RowId) {
    x != id && IsRow(p.mail, x) && !x.Notice? && !id.Notice? && (x.To? <==> id.To?) &&
    SameRecipient(p, x.addr, id.addr) && id.addr in Listed(p.mail, UnitOf(p, x))
  }

  /** Two spellings of one address. */
  ghost predicate SameRecipient(p: Post, x: Text, y: Text) {
    p.fold(x) == p.fold(y) && Domain(p.fold, x) == Domain(p.fold, y)
  }

  ghost predicate Disturbed(p: Post, id: RowId) { exists x :: Disturbs(p, x, id) }

  /** No other row disturbs it, and its own unit lists its address once. */
  ghost predicate Once(p: Post, id: RowId) {
    !Disturbed(p, id) && (!id.Notice? ==> Occurrences(Listed(p.mail, UnitOf(p, id)), id.addr) == 1)
  }

  lemma {:induction false} OnDomainKeeps(fold: Text -> Text, addrs: seq<Text>, d: Text, a: Text)
    ensures Occurrences(OnDomain(fold, addrs, d), a) == if Domain(fold, a) == Some(d) then Occurrences(addrs, a) else 0
  {
    if addrs != [] {
      var init, last := OnDomain(fold, addrs[..|addrs| - 1], d), addrs[|addrs| - 1];
      OnDomainKeeps(fold, addrs[..|addrs| - 1], d, a);
      if Domain(fold, last) == Some(d) {
        assert (init + [last])[..|init|] == init;
      } else {
        assert init + [] == init;
      }
    }
  }

  /** The recipients are the listed entries on the domain, as often. */
  lemma {:induction false} RecipientCount(p: Post, u: Unit, a: Text)
    ensures Occurrences(Recipients(p.fold, p.mail, u), a) ==
            if Domain(p.fold, a) == Some(u.domain) then Occurrences(Listed(p.mail, u), a) else 0
    ensures a in Recipients(p.fold, p.mail, u) <==> Domain(p.fold, a) == Some(u.domain) && a in Listed(p.mail, u)
  {
    OnDomainKeeps(p.fold, Listed(p.mail, u), u.domain, a);
    NotListed(Listed(p.mail, u), a);
    NotListed(Recipients(p.fold, p.mail, u), a);
  }

  lemma {:induction false} OwnIsListed(p: Post, id: RowId)
    requires IsRow(p.mail, id) && !id.Notice?
    ensures id.addr in Listed(p.mail, UnitOf(p, id))
  {
  }

  ghost predicate LockedOk(p: Post, o: Open) {
    o.locked <= o.held && forall x :: x in o.locked ==> IsRow(p.mail, x) && Mine(p.fold, o.unit, x)
  }

  /** A unit that records for an undisturbed row has locked it. */
  lemma {:induction false} WritesOnlyLocked(p: Post, o: Open, net: Network, id: RowId)
    requires LockedOk(p, o) && IsRow(p.mail, id) && !Disturbed(p, id) && UnitWrites(p, o, net, id) != []
    ensures id in o.locked
  {
    if !id.Notice? {
      var x := LockedAlike(p, o, net, id);
      OwnIsListed(p, x);
      assert UnitOf(p, x) == o.unit;
      assert x == id || Disturbs(p, x, id);
    }
  }

  /** It has locked a row alike, on the same domain, and lists the address. */
  lemma {:induction false} LockedAlike(p: Post, o: Open, net: Network, id: RowId) returns (x: RowId)
    requires LockedOk(p, o) && !id.Notice? && UnitWrites(p, o, net, id) != []
    ensures x in o.locked && !x.Notice? && (x.To? <==> id.To?) && p.fold(x.addr) == p.fold(id.addr)
    ensures Domain(p.fold, x.addr) == Domain(p.fold, id.addr) == Some(o.unit.domain)
    ensures x.addr == id.addr || id.addr in Listed(p.mail, o.unit)
  {
    var recips := Recipients(p.fold, p.mail, o.unit);
    var addrs := Addresses(o.locked);
    if id.addr in addrs {
      x :| x in o.locked && !x.Notice? && x.addr == id.addr;
    } else {
      NoOutcomeIff(p.fold, o.unit.AddTo?, recips, addrs, id.addr);
      RecipientCount(p, o.unit, id.addr);
      var a :| a in addrs && p.fold(a) == p.fold(id.addr);
      x :| x in o.locked && !x.Notice? && x.addr == a;
    }
  }

  /** For a row it locked, listed once, a unit records one outcome. */
  lemma {:induction false} LockedGetsOne(p: Post, o: Open, net: Network, id: RowId)
    requires LockedOk(p, o) && id in o.locked && Once(p, id)
    ensures |UnitWrites(p, o, net, id)| == 1
  {
    if !id.Notice? {
      assert UnitOf(p, id) == o.unit;
      RecipientCount(p, o.unit, id.addr);
      assert id.addr in Addresses(o.locked);
      OutcomesRecorded(p.fold, o.unit.AddTo?, Recipients(p.fold, p.mail, o.unit), Addresses(o.locked), net, id.addr);
    }
  }

  // ---- what every run keeps ----

  ghost predicate SystemOk(p: Post, s: System) {
    (forall id :: id in s.rows ==> IsRow(p.mail, id)) && (forall k :: k in s.open ==> LockedOk(p, s.open[k]))
  }

  lemma {:induction false} StepOk(p: Post, s: System, e: Event)
    requires SystemOk(p, s)
    ensures SystemOk(p, Step(p, s, e)) && Step(p, s, e).rows.Keys == s.rows.Keys
  {
  }

  lemma {:induction false} RunOk(p: Post, rows: Rows, es: seq<Event>)
    requires RowsOf(p.mail, rows)
    ensures SystemOk(p, Run(p, rows, es)) && Run(p, rows, es).rows.Keys == rows.Keys
  {
    if es != [] {
      RunOk(p, rows, es[..|es| - 1]);
      StepOk(p, Run(p, rows, es[..|es| - 1]), es[|es| - 1]);
    }
  }

  /** The units that hold the row found it pending, and it has not changed since. */
  ghost predicate HeldPending(p: Post, s: System, id: RowId)
    requires id in s.rows && IsRow(p.mail, id)
  {
    forall k :: k in s.open && id in s.open[k].held ==>
      IsPending(p.config, s.rows[id], Age(p.mail, id), s.open[k].at)
  }

  /** What one step does to an undisturbed row: nothing, unless the step finishes a unit
      that holds it. */
  lemma {:induction false} StepOnRow(p: Post, s: System, e: Event, id: RowId)
    requires SystemOk(p, s) && id in s.rows && !Disturbed(p, id) && HeldPending(p, s, id)
    ensures var t := Step(p, s, e);
      id in t.rows && HeldPending(p, t, id) &&
      (t.rows[id] != s.rows[id] ==>
        e.Finish? && e.key in s.open && id in s.open[e.key].locked && !Held(t, id) &&
        t.rows[id] == RecordAll(s.rows[id], e.stamp, UnitWrites(p, s.open[e.key], e.net, id)))
  {
    var t := Step(p, s, e);
    StepOk(p, s, e);
    if e.Finish? && e.key in s.open && !Blocked(p, s, e.key, e.net) {
      var o := s.open[e.key];
      assert t.rows[id] == RecordAll(s.rows[id], e.stamp, UnitWrites(p, o, e.net, id));
      if UnitWrites(p, o, e.net, id) != [] {
        WritesOnlyLocked(p, o, e.net, id);
        assert !Held(t, id);
      }
    } else {
      assert t.rows == s.rows;
      assert forall k :: k in t.open ==>
        ((k in s.open && t.open[k] == s.open[k]) ||
         (e.Begin? && t.open[k].held == Lockable(p, s, e.unit, e.at) && t.open[k].at == e.at));
    }
  }

  // ---- a final row ----

  lemma {:induction false} RunHeldPending(p: Post, rows: Rows, es: seq<Event>, id: RowId)
    requires RowsOf(p.mail, rows) && id in rows && !Disturbed(p, id)
    ensures id in Run(p, rows, es).rows && HeldPending(p, Run(p, rows, es), id)
  {
    if es != [] {
      var init := es[..|es| - 1];
      RunHeldPending(p, rows, init, id);
      RunOk(p, rows, init);
      StepOnRow(p, Run(p, rows, init), es[|es| - 1], id);
    }
  }

  /** Once an undisturbed row is final, no later event of any run changes it. */
  lemma {:induction false} FinalForever(p: Post, rows: Rows, before: seq<Event>, after: seq<Event>, id: RowId)
    requires RowsOf(p.mail, rows) && id in rows && !Disturbed(p, id)
    requires id in Run(p, rows, before).rows && Final(Run(p, rows, before).rows[id])
    ensures id in Run(p, rows, before + after).rows
    ensures Run(p, rows, before + after).rows[id] == Run(p, rows, before).rows[id]
    decreases |after|
  {
    if after == [] {
      assert before + after == before;
    } else {
      var init, e := after[..|after| - 1], after[|after| - 1];
      assert (before + after)[..|before + after| - 1] == before + init && (before + after)[|before + after| - 1] == e;
      FinalForever(p, rows, before, init, id);
      RunHeldPending(p, rows, before + init, id);
      RunOk(p, rows, before + init);
      StepOnRow(p, Run(p, rows, before + init), e, id);
    }
  }

  // ---- a row's history ----

  /** The row is what these attempts, one after another, made of it; a unit that holds
      it began after the last of them. */
  ghost predicate Tracks(p: Post, s: System, id: RowId, was: Row, runs: seq<Attempt>, now: real)
    requires id in s.rows && IsRow(p.mail, id)
  {
    var age := Age(p.mail, id);
    Consecutive(age, runs) && s.rows[id] == History(p.config, age, was, runs) &&
    (runs != [] ==> LastTime(age, runs) <= now) &&
    forall k :: k in s.open && id in s.open[k].held ==> LastTime(age, runs) <= s.open[k].at <= now
  }

  /** Finishing a unit that holds the row is one attempt. */
  lemma {:induction false} FinishIsAttempt(p: Post, o: Open, net: Network, stamp: real, id: RowId, r: Row)
    returns (a: Attempt)
    requires LockedOk(p, o) && id in o.locked && Once(p, id)
    requires IsPending(p.config, r, Age(p.mail, id), o.at)
    ensures a.locked == o.at && a.recorded == stamp
    ensures RecordAll(r, stamp, UnitWrites(p, o, net, id)) == AfterAttempt(p.config, Age(p.mail, id), r, a)
  {
    LockedGetsOne(p, o, net, id);
    var out := UnitWrites(p, o, net, id);
    assert out == [out[0]];
    RecordOne(r, stamp, out[0]);
    a := Attempt(o.at, stamp, out[0]);
  }

  lemma {:induction false} StepTracks(p: Post, s: System, e: Event, id: RowId, was: Row, runs: seq<Attempt>, now: real)
    returns (more: seq<Attempt>)
    requires SystemOk(p, s) && id in s.rows && Once(p, id) && HeldPending(p, s, id) && Tracks(p, s, id, was, runs, now)
    requires now <= e.at && (e.Begin? ==> SentAt(p.mail, e.unit) <= e.at)
    requires e.Finish? && e.key in s.open ==> s.open[e.key].at <= e.stamp <= e.at
    ensures id in Step(p, s, e).rows && Tracks(p, Step(p, s, e), id, was, more, e.at)
  {
    var t := Step(p, s, e);
    StepOnRow(p, s, e, id);
    if t.rows[id] == s.rows[id] {
      more := runs;
      OpenedLater(p, s, e);
    } else {
      var o := s.open[e.key];
      var a := FinishIsAttempt(p, o, e.net, e.stamp, id, s.rows[id]);
      HistorySnoc(p.config, Age(p.mail, id), Age(p.mail, id), was, runs, a);
      more := runs + [a];
    }
  }

  /** A step opens at most one unit, at its own time. */
  lemma {:induction false} OpenedLater(p: Post, s: System, e: Event)
    ensures var t := Step(p, s, e);
      forall k :: k in t.open ==>
        ((k in s.open && t.open[k] == s.open[k]) || (e.Begin? && t.open[k].at == e.at && t.open[k].unit == e.unit &&
          forall x :: x in t.open[k].held ==> InBatch(e.unit, x)))
  {
  }

  function Now(es: seq<Event>): real { if es == [] then 0.0 else es[|es| - 1].at }

  /** Over every run, what became of a row its own unit lists once, and no other can
      reach, is a history of single attempts, each begun when it was pending. */
  lemma {:induction false} RowTracks(p: Post, rows: Rows, es: seq<Event>, id: RowId) returns (runs: seq<Attempt>)
    requires RowsOf(p.mail, rows) && Clocked(p, rows, es) && id in rows && Once(p, id)
    ensures id in Run(p, rows, es).rows && Tracks(p, Run(p, rows, es), id, rows[id], runs, Now(es))
  {
    if es == [] {
      runs := [];
    } else {
      var init, e := es[..|es| - 1], es[|es| - 1];
      var before: seq<Attempt>, now := [], e.at;
      if init != [] {
        before := RowTracks(p, rows, init, id);
        now := Now(init);
      }
      RunOk(p, rows, init);
      RunHeldPending(p, rows, init, id);
      runs := StepTracks(p, Run(p, rows, init), e, id, rows[id], before, now);
    }
  }

  /** Some history of single attempts explains the row. */
  ghost predicate HasHistory(p: Post, id: RowId, was: Row, r: Row)
    requires IsRow(p.mail, id)
  {
    exists runs: seq<Attempt> ::
      Consecutive(Age(p.mail, id), runs) && r == History(p.config, Age(p.mail, id), was, runs)
  }

  /** The attempts a run records on a row never outgrow the back-off. */
  lemma {:induction false} AttemptsAreBounded(p: Post, rows: Rows, es: seq<Event>, id: RowId)
    requires ConfigOk(p.config) && RowsOf(p.mail, rows) && Clocked(p, rows, es)
    requires id in rows && rows[id] == FRESH && Once(p, id)
    ensures id in Run(p, rows, es).rows && AttemptsFit(p.config, Run(p, rows, es).rows[id].attempts)
  {
    var runs := RowTracks(p, rows, es, id);
    HistoryAttempts(p.config, Age(p.mail, id), runs);
  }

  /** With the default settings of 20 seconds and one day: at most 13. */
  lemma {:induction false} AtMostThirteenByDefault(p: Post, rows: Rows, es: seq<Event>, id: RowId)
    requires p.config == Config(20.0, 86400.0) && RowsOf(p.mail, rows) && Clocked(p, rows, es)
    requires id in rows && rows[id] == FRESH && Once(p, id)
    ensures id in Run(p, rows, es).rows && Run(p, rows, es).rows[id].attempts <= 13
  {
    AttemptsAreBounded(p, rows, es, id);
    var n := Run(p, rows, es).rows[id].attempts;
    assert Pow2(4) == 16 && Pow2(8) == 256 && Pow2(12) == 4096 && Pow2(13) == 8192;
    if n > 13 { Pow2Grows(13, n - 1); }
  }

  // ---- exactly which rows ----

  /** In every run, a final row stays as it is. */
  ghost predicate StaysFinal(p: Post, id: RowId) {
    forall rows: Rows, before: seq<Event>, after: seq<Event> ::
      RowsOf(p.mail, rows) && id in rows && Clocked(p, rows, before + after) &&
      id in Run(p, rows, before).rows && Final(Run(p, rows, before).rows[id]) ==>
        id in Run(p, rows, before + after).rows &&
        Run(p, rows, before + after).rows[id] == Run(p, rows, before).rows[id]
  }

  /** In every run, the row has a history of single attempts. */
  ghost predicate AlwaysHistory(p: Post, id: RowId)
    requires IsRow(p.mail, id)
  {
    forall rows: Rows, es: seq<Event> :: RowsOf(p.mail, rows) && id in rows && Clocked(p, rows, es) ==>
      id in Run(p, rows, es).rows && HasHistory(p, id, rows[id], Run(p, rows, es).rows[id])
  }

  const DELIVERED: Row := Row(Some(0.0), None, Some(200), 0)

  /** Every recipient delivered but one. */
  function OnlyPending(m: Mail, x: RowId): Rows {
    map id | id in RecipientIds(m) :: if id == x then FRESH else DELIVERED
  }

  /** The unit of x begins at once and hears a refusal for every entry. */
  function RefusedRun(p: Post, x: RowId): seq<Event>
    requires IsRow(p.mail, x)
  {
    var t := Age(p.mail, x);
    [Begin(0, UnitOf(p, x), t), Finish(0, AllRefused(Recipients(p.fold, p.mail, UnitOf(p, x))), t, t)]
  }

  /** A run of two events. */
  lemma {:induction false} TwoEvents(p: Post, rows: Rows, e: Event, f: Event)
    ensures Run(p, rows, [e]) == Step(p, System(rows, map[]), e)
    ensures Run(p, rows, [e, f]) == Step(p, Run(p, rows, [e]), f)
    ensures Clocked(p, rows, [e, f]) <==>
      Clocked(p, rows, [e]) && e.at <= f.at && (f.Begin? ==> SentAt(p.mail, f.unit) <= f.at) &&
      (f.Finish? && f.key in Run(p, rows, [e]).open ==> Run(p, rows, [e]).open[f.key].at <= f.stamp <= f.at)
    ensures Clocked(p, rows, [e]) <==> (e.Begin? ==> SentAt(p.mail, e.unit) <= e.at)
  {
    assert [e, f][..1] == [e] && [e][..0] == [];
    assert Run(p, rows, []) == System(rows, map[]);
  }

  lemma {:induction false} RefusedRunLocks(p: Post, x: RowId, s: System)
    requires PostOk(p) && IsRow(p.mail, x) && !x.Notice? && s == System(OnlyPending(p.mail, x), map[])
    ensures Step(p, s, RefusedRun(p, x)[0]) == s.(open := map[0 := Open(UnitOf(p, x), {x}, {x}, Age(p.mail, x))])
  {
    assert x in s.rows && s.rows[x] == FRESH && Mine(p.fold, UnitOf(p, x), x);
    forall id ensures id in Lockable(p, s, UnitOf(p, x), Age(p.mail, x)) <==> id == x {
    }
    assert Lockable(p, s, UnitOf(p, x), Age(p.mail, x)) == {x};
    assert Own(p, UnitOf(p, x), {x}) == {x};
  }

  lemma {:induction false} RefusedRunEnds(p: Post, x: RowId)
    requires PostOk(p) && IsRow(p.mail, x) && !x.Notice?
    ensures var es := RefusedRun(p, x);
      var rows := OnlyPending(p.mail, x);
      RowsOf(p.mail, rows) && Clocked(p, rows, es) &&
      Run(p, rows, es).rows == Recorded(p.fold, p.mail, rows, UnitOf(p, x), {x}, es[1].net, es[1].stamp)
  {
    var es, rows := RefusedRun(p, x), OnlyPending(p.mail, x);
    RefusedRunLocks(p, x, System(rows, map[]));
    TwoEvents(p, rows, es[0], es[1]);
    var s := Run(p, rows, [es[0]]);
    assert !Blocked(p, s, 0, es[1].net);
  }

  lemma {:induction false} RefusedCodes(fold: Text -> Text, recips: seq<Text>, locked: set<Text>, codes: bytes,
                                        addr: Text)
    requires |codes| == |recips| && forall i :: 0 <= i < |codes| ==> codes[i] == 0
    ensures forall o :: o in CodesFor(fold, recips, locked, codes, addr) ==> o == Outcome(0, false)
  {
    if recips != [] { RefusedCodes(fold, recips[..|recips| - 1], locked, codes[..|recips| - 1], addr); }
  }

  lemma {:induction false} RefusalsCount(r: Row, at: real, os: seq<Outcome>)
    requires os != [] && forall o :: o in os ==> o == Outcome(0, false)
    ensures RecordAll(r, at, os) == r.(lastAttempt := Some(at), code := Some(0), attempts := r.attempts + |os|)
  {
    var n := |os| - 1;
    assert os[n] in os;
    if n > 0 {
      assert forall o :: o in os[..n] ==> o in os;
      RefusalsCount(r, at, os[..n]);
    }
  }

  /** What the unit of x, having locked x alone and heard only refusals, records for a
      row with x's address up to case: one for each time it lists its spelling. */
  lemma {:induction false} RefusedWrites(p: Post, x: RowId, id: RowId, r: Row, at: real)
    requires IsRow(p.mail, x) && !x.Notice? && !id.Notice? && (x.To? <==> id.To?)
    requires SameRecipient(p, x.addr, id.addr) && Domain(p.fold, id.addr).Some?
    requires id.addr in Listed(p.mail, UnitOf(p, x))
    ensures var u := UnitOf(p, x);
      RecordAll(r, at, Writes(p.fold, p.mail, u, {x}, AllRefused(Recipients(p.fold, p.mail, u)), id)) ==
        r.(lastAttempt := Some(at), code := Some(0),
           attempts := r.attempts + Occurrences(Listed(p.mail, u), id.addr))
  {
    var u := UnitOf(p, x);
    var recips := Recipients(p.fold, p.mail, u);
    var net := AllRefused(recips);
    RecipientCount(p, u, id.addr);
    assert x.addr in Addresses({x}) by { assert x in {x}; }
    var keys := Folded(p.fold, Addresses({x}));
    assert p.fold(id.addr) in keys;
    var os := CodesFor(p.fold, recips, keys, net.codes.value, id.addr);
    assert Writes(p.fold, p.mail, u, {x}, net, id) == os by {
      assert CommonOutcome(u.AddTo?, |recips|, net).None?;
    }
    OneCodePerEntry(p.fold, recips, keys, net.codes.value, id.addr);
    NotListed(Listed(p.mail, u), id.addr);
    RefusedCodes(p.fold, recips, keys, net.codes.value, id.addr);
    RefusalsCount(r, at, os);
  }

  lemma {:induction false} RefusedRunRecords(p: Post, x: RowId, id: RowId)
    requires PostOk(p) && IsRow(p.mail, x) && !x.Notice? && IsRow(p.mail, id) && !id.Notice? && (x.To? <==> id.To?)
    requires SameRecipient(p, x.addr, id.addr) && id.addr in Listed(p.mail, UnitOf(p, x))
    ensures var rows := OnlyPending(p.mail, x);
      var end := Run(p, rows, RefusedRun(p, x)).rows;
      id in rows && id in end &&
      end[id] == rows[id].(lastAttempt := Some(Age(p.mail, x)), code := Some(0),
                           attempts := rows[id].attempts + Occurrences(Listed(p.mail, UnitOf(p, x)), id.addr))
  {
    var rows := OnlyPending(p.mail, x);
    assert id in rows;
    RefusedWrites(p, x, id, rows[id], Age(p.mail, x));
    RefusedRunEnds(p, x);
  }

  /** A final row that a run changed. */
  ghost predicate Changed(p: Post, rows: Rows, es: seq<Event>, id: RowId) {
    RowsOf(p.mail, rows) && Clocked(p, rows, es) && id in rows && Final(rows[id]) &&
    id in Run(p, rows, es).rows && Run(p, rows, es).rows[id] != rows[id]
  }

  lemma {:induction false} DisturbedChanges(p: Post, x: RowId, id: RowId)
    requires PostOk(p) && IsRow(p.mail, id) && Disturbs(p, x, id)
    ensures Changed(p, OnlyPending(p.mail, x), RefusedRun(p, x), id)
  {
    RefusedRunEnds(p, x);
    RefusedRunRecords(p, x, id);
    NotListed(Listed(p.mail, UnitOf(p, x)), id.addr);
  }

  /** A row that some run changes though final does not stay final, and has no history. */
  lemma {:induction false} ChangedRefutes(p: Post, rows: Rows, es: seq<Event>, id: RowId)
    requires IsRow(p.mail, id) && Changed(p, rows, es, id)
    ensures !StaysFinal(p, id) && !AlwaysHistory(p, id)
  {
    assert [] + es == es;
    assert Run(p, rows, []).rows == rows;
    var end := Run(p, rows, es).rows[id];
    if HasHistory(p, id, rows[id], end) { FinalHasNoOther(p, id, rows[id], end); }
  }

  lemma {:induction false} FinalHasNoOther(p: Post, id: RowId, was: Row, r: Row)
    requires IsRow(p.mail, id) && Final(was) && HasHistory(p, id, was, r)
    ensures r == was
  {
    var age := Age(p.mail, id);
    var runs: seq<Attempt> :| Consecutive(age, runs) && r == History(p.config, age, was, runs);
    FinalHistory(p.config, age, was, runs);
  }

  /** Exactly the undisturbed rows stay final, in every run. */
  lemma {:induction false} StaysFinalIff(p: Post, id: RowId)
    requires PostOk(p) && IsRow(p.mail, id)
    ensures StaysFinal(p, id) <==> !Disturbed(p, id)
  {
    if Disturbed(p, id) {
      var x :| Disturbs(p, x, id);
      DisturbedChanges(p, x, id);
      ChangedRefutes(p, OnlyPending(p.mail, x), RefusedRun(p, x), id);
    } else {
      forall rows: Rows, before: seq<Event>, after: seq<Event> |
        RowsOf(p.mail, rows) && id in rows && Clocked(p, rows, before + after) &&
        id in Run(p, rows, before).rows && Final(Run(p, rows, before).rows[id])
        ensures id in Run(p, rows, before + after).rows &&
                Run(p, rows, before + after).rows[id] == Run(p, rows, before).rows[id]
      {
        FinalForever(p, rows, before, after, id);
      }
    }
  }

  /** A row listed twice by its own unit gets two refusals at one time, which no
      history of single attempts does. */
  lemma {:induction false} ListedTwiceHasNone(p: Post, id: RowId)
    requires PostOk(p) && IsRow(p.mail, id) && !id.Notice?
    requires Occurrences(Listed(p.mail, UnitOf(p, id)), id.addr) != 1
    ensures !AlwaysHistory(p, id)
  {
    var rows, es := OnlyPending(p.mail, id), RefusedRun(p, id);
    OwnIsListed(p, id);
    NotListed(Listed(p.mail, UnitOf(p, id)), id.addr);
    RefusedRunEnds(p, id);
    RefusedRunRecords(p, id, id);
    var end := Run(p, rows, es).rows[id];
    var age := Age(p.mail, id);
    assert end.attempts >= 2 && end.lastAttempt == Some(age);
    if HasHistory(p, id, rows[id], end) {
      var runs: seq<Attempt> :| Consecutive(age, runs) && end == History(p.config, age, rows[id], runs);
      TwoTakeTime(p.config, age, runs);
    }
  }

  lemma {:induction false} TwoTakeTime(c: Config, age: real, runs: seq<Attempt>)
    requires ConfigOk(c) && Consecutive(age, runs)
    ensures var r := History(c, age, FRESH, runs); r.attempts >= 2 ==> r.lastAttempt.Some? && r.lastAttempt.value > age
  {
    var last := HistoryBounded(c, age, FRESH, runs, age);
    var n := History(c, age, FRESH, runs).attempts;
    if n >= 2 {
      WaitAtLeast(c, n - 2);
      assert Wait(c, n - 1) == 2.0 * Wait(c, n - 2);
    }
  }

  /** Exactly the rows listed once and undisturbed have, in every run, a history of
      single attempts. */
  lemma {:induction false} HistoryIff(p: Post, id: RowId)
    requires PostOk(p) && IsRow(p.mail, id)
    ensures AlwaysHistory(p, id) <==> Once(p, id)
  {
    if Once(p, id) {
      forall rows: Rows, es: seq<Event> | RowsOf(p.mail, rows) && id in rows && Clocked(p, rows, es)
        ensures id in Run(p, rows, es).rows && HasHistory(p, id, rows[id], Run(p, rows, es).rows[id])
      {
        var runs := RowTracks(p, rows, es, id);
      }
    } else if Disturbed(p, id) {
      var x :| Disturbs(p, x, id);
      DisturbedChanges(p, x, id);
      ChangedRefutes(p, OnlyPending(p.mail, x), RefusedRun(p, x), id);
    } else {
      ListedTwiceHasNone(p, id);
    }
  }

  // ---- when the condition holds ----

  ghost predicate DistinctUpToCase(fold: Text -> Text, addrs: seq<Text>) {
    forall i, j :: 0 <= i < j < |addrs| ==> fold(addrs[i]) != fold(addrs[j])
  }

  lemma {:induction false} SameName(fold: Text -> Text, addrs: seq<Text>, x: Text, y: Text)
    requires DistinctUpToCase(fold, addrs) && x in addrs && y in addrs && fold(x) == fold(y)
    ensures x == y
  {
    var i :| 0 <= i < |addrs| && addrs[i] == x;
    var j :| 0 <= j < |addrs| && addrs[j] == y;
  }

  lemma {:induction false} ListedOnce(fold: Text -> Text, addrs: seq<Text>, a: Text)
    requires DistinctUpToCase(fold, addrs) && a in addrs
    ensures Occurrences(addrs, a) == 1
  {
    var n := |addrs| - 1;
    assert addrs == addrs[..n] + [addrs[n]];
    if addrs[n] == a {
      NotListed(addrs[..n], a);
    } else {
      ListedOnce(fold, addrs[..n], a);
    }
  }

  /** In a message whose to entries are distinct up to case, as the protocol asks,
      every msg_to row qualifies, whatever its batches hold. */
  lemma {:induction false} ToRowsAreOnce(p: Post, a: Text)
    requires a in p.mail.to && DistinctUpToCase(p.fold, p.mail.to)
    ensures Once(p, To(a))
  {
    var u := UnitOf(p, To(a));
    assert Listed(p.mail, u) == p.mail.to;
    ListedOnce(p.fold, p.mail.to, a);
    forall x: RowId | x.To? && x.addr in p.mail.to && p.fold(x.addr) == p.fold(a) ensures x == To(a) {
      SameName(p.fold, p.mail.to, x.addr, a);
    }
  }

  /** A notify row always qualifies. */
  lemma {:induction false} NoticesAreOnce(p: Post, b: nat, d: Text)
    ensures Once(p, Notice(b, d))
  {
  }

  /** A row of a batch qualifies exactly when the batch's header lists its address
      once, and no other row of any batch, with the same address up to case, is
      in a batch whose header lists its spelling. */
  lemma {:induction false} AddedOnceIff(p: Post, b: nat, a: Text)
    requires IsRow(p.mail, Added(b, a))
    ensures Once(p, Added(b, a)) <==>
      Occurrences(p.mail.to + p.mail.batches[b].addTo, a) == 1 &&
      forall c: nat, y ::
        c < |p.mail.batches| && (c, y) != (b, a) && y in p.mail.batches[c].addTo && SameRecipient(p, y, a) ==>
          a !in p.mail.to + p.mail.batches[c].addTo
  {
    var id := Added(b, a);
    assert Listed(p.mail, UnitOf(p, id)) == p.mail.to + p.mail.batches[b].addTo;
    forall x | Disturbs(p, x, id)
      ensures x.Added? && (x.batch, x.addr) != (b, a) && x.addr in p.mail.batches[x.batch].addTo &&
              a in p.mail.to + p.mail.batches[x.batch].addTo
    {
    }
    forall c: nat, y | c < |p.mail.batches| && (c, y) != (b, a) && y in p.mail.batches[c].addTo &&
        SameRecipient(p, y, a) && a in p.mail.to + p.mail.batches[c].addTo
      ensures Disturbed(p, id)
    {
      assert Disturbs(p, Added(c, y), id);
    }
  }
}
