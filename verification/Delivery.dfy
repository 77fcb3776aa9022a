/** Delivery rows (cmd/fmsgd/sender.go): when a recipient is tried again, how often,
    and what one delivery unit records. */
module Delivery {
  import opened Prelude
  import Header
  import Parser

  /** A recipient row: `attempts` counts failed attempts. */
  datatype Row = Row(delivered: Option<real>, lastAttempt: Option<real>, code: Option<int>, attempts: nat)

  const NO_RESPONSE: int := -1
  const NOT_OURS: int := -2

  predicate Retryable(code: int) { code == NO_RESPONSE || code == 3 || code == 5 || code == 101 }

  datatype Config = Config(interval: real, maxAge: real)

  ghost predicate ConfigOk(c: Config) { c.interval > 0.0 && c.maxAge > 0.0 }

  /** interval * 2^n */
  function Wait(c: Config, n: nat): real {
    if n == 0 then c.interval else 2.0 * Wait(c, n - 1)
  }

  function Pow2(n: nat): nat { if n == 0 then 1 else 2 * Pow2(n - 1) }

  lemma {:induction false} WaitIsExponential(c: Config, n: nat)
    ensures Wait(c, n) == c.interval * (Pow2(n) as real)
  {
    if n > 0 {
      var half := Pow2(n - 1) as real;
      assert Wait(c, n - 1) == c.interval * half by { WaitIsExponential(c, n - 1); }
      assert Pow2(n) as real == 2.0 * half;
      Doubled(c.interval, half);
    }
  }

  lemma {:induction false} Doubled(a: real, x: real)
    ensures a * (2.0 * x) == 2.0 * (a * x)
  {
  }

  function BackOff(c: Config, attempts: nat): real {
    var w := Wait(c, if attempts == 0 then 0 else attempts - 1);
    if w <= c.maxAge then w else c.maxAge
  }

  /** The guard of the pending queries: undelivered, retryable, past its back-off
      and not too old. */
  predicate IsPending(c: Config, r: Row, sent: real, now: real) {
    r.delivered.None? && (r.code.None? || Retryable(r.code.value)) &&
    (r.lastAttempt.None? || now - r.lastAttempt.value > BackOff(c, r.attempts)) &&
    now - sent < c.maxAge
  }

  datatype Outcome = Outcome(code: int, delivered: bool)

  /** updateRecipient on one row. */
  function Record(r: Row, at: real, o: Outcome): Row {
    if o.delivered then r.(delivered := Some(at), code := Some(o.code))
    else r.(lastAttempt := Some(at), code := Some(o.code), attempts := r.attempts + 1)
  }

  // ---- one to-recipient over a whole history ----

  /** A delivery run: the time it locks the row, the time it records, the outcome. */
  datatype Attempt = Attempt(locked: real, recorded: real, outcome: Outcome)

  function AfterAttempt(c: Config, sent: real, r: Row, a: Attempt): Row {
    if IsPending(c, r, sent, a.locked) then Record(r, a.recorded, a.outcome) else r
  }

  function History(c: Config, sent: real, r: Row, runs: seq<Attempt>): Row
    decreases |runs|
  {
    if runs == [] then r else History(c, sent, AfterAttempt(c, sent, r, runs[0]), runs[1..])
  }

  /** Locks are exclusive, so runs follow one another, after the message was sent. */
  ghost predicate Consecutive(start: real, runs: seq<Attempt>)
    decreases |runs|
  {
    runs == [] ||
    (start <= runs[0].locked <= runs[0].recorded && Consecutive(runs[0].recorded, runs[1..]))
  }

  const FRESH: Row := Row(None, None, None, 0)

  /** n attempts took at least interval * (2^(n-1) - 1), and that is below the maximum age. */
  ghost predicate Bounded(c: Config, sent: real, r: Row, now: real) {
    (r.attempts == 0 <==> r.lastAttempt.None?) &&
    (r.attempts > 0 ==>
      r.lastAttempt.value <= now &&
      r.lastAttempt.value - sent >= Wait(c, r.attempts - 1) - c.interval &&
      Wait(c, r.attempts - 1) - c.interval < c.maxAge)
  }

  lemma {:induction false} WaitAtLeast(c: Config, n: nat)
    requires ConfigOk(c)
    ensures Wait(c, n) >= c.interval
  {
    if n > 0 { WaitAtLeast(c, n - 1); }
  }

  lemma {:induction false} AttemptBounded(c: Config, sent: real, r: Row, a: Attempt, now: real)
    requires ConfigOk(c) && Bounded(c, sent, r, now) && sent <= now <= a.locked <= a.recorded
    ensures Bounded(c, sent, AfterAttempt(c, sent, r, a), a.recorded)
  {
    if IsPending(c, r, sent, a.locked) && !a.outcome.delivered && r.attempts > 0 {
      WaitAtLeast(c, r.attempts - 1);
    }
  }

  lemma {:induction false} HistoryBounded(c: Config, sent: real, r: Row, runs: seq<Attempt>, now: real)
    returns (end: real)
    requires ConfigOk(c) && Bounded(c, sent, r, now) && sent <= now && Consecutive(now, runs)
    ensures Bounded(c, sent, History(c, sent, r, runs), end)
    decreases |runs|
  {
    if runs == [] {
      end := now;
    } else {
      AttemptBounded(c, sent, r, runs[0], now);
      end := HistoryBounded(c, sent, AfterAttempt(c, sent, r, runs[0]), runs[1..], runs[0].recorded);
    }
  }

  /** n attempts with all the waits between them take less than the maximum age. */
  ghost predicate AttemptsFit(c: Config, n: nat) {
    n > 0 ==> c.interval * (Pow2(n - 1) as real) - c.interval < c.maxAge
  }

  /** However a history goes, its recorded attempts n satisfy
      interval * (2^(n-1) - 1) < maximum age. */
  lemma {:induction false} HistoryAttempts(c: Config, sent: real, runs: seq<Attempt>)
    requires ConfigOk(c) && Consecutive(sent, runs)
    ensures AttemptsFit(c, History(c, sent, FRESH, runs).attempts)
  {
    var end := HistoryBounded(c, sent, FRESH, runs, sent);
    var r := History(c, sent, FRESH, runs);
    if r.attempts > 0 { WaitIsExponential(c, r.attempts - 1); }
  }

  lemma {:induction false} Pow2Grows(m: nat, n: nat)
    requires m <= n
    ensures Pow2(m) <= Pow2(n)
  {
    if m < n { Pow2Grows(m, n - 1); }
  }

  /** Delivered, or refused for good (which includes rows that are another host's
      duty). */
  predicate Final(r: Row) { r.delivered.Some? || (r.code.Some? && !Retryable(r.code.value)) }

  lemma {:induction false} FinalHistory(c: Config, sent: real, r: Row, runs: seq<Attempt>)
    requires Final(r)
    ensures History(c, sent, r, runs) == r
    decreases |runs|
  {
    if runs != [] { FinalHistory(c, sent, r, runs[1..]); }
  }

  /** When the last attempt was recorded. */
  function LastTime(start: real, runs: seq<Attempt>): real
    decreases |runs|
  {
    if runs == [] then start else LastTime(runs[0].recorded, runs[1..])
  }

  /** One attempt more. */
  lemma {:induction false} HistorySnoc(c: Config, sent: real, start: real, r: Row, runs: seq<Attempt>, a: Attempt)
    requires Consecutive(start, runs) && LastTime(start, runs) <= a.locked <= a.recorded
    ensures Consecutive(start, runs + [a]) && LastTime(start, runs + [a]) == a.recorded
    ensures History(c, sent, r, runs + [a]) == AfterAttempt(c, sent, History(c, sent, r, runs), a)
    decreases |runs|
  {
    var all := runs + [a];
    if runs == [] {
      assert all == [a] && all[1..] == [];
      assert History(c, sent, AfterAttempt(c, sent, r, a), []) == AfterAttempt(c, sent, r, a);
    } else {
      assert all[0] == runs[0] && all[1..] == runs[1..] + [a];
      HistorySnoc(c, sent, runs[0].recorded, AfterAttempt(c, sent, r, runs[0]), runs[1..], a);
    }
  }

  // ---- the rows of a message ----

  type Text = bytes

  datatype Batch = Batch(time: real, addTo: seq<Text>)

  /** A sent message: its recipients, its batches, and when each was sent. */
  datatype Mail = Mail(sent: real, to: seq<Text>, batches: seq<Batch>)

  /** A row of msg_to, of msg_add_to, or of msg_add_to_notify (by folded domain). */
  datatype RowId = To(addr: Text) | Added(batch: nat, addr: Text) | Notice(batch: nat, domain: Text)
  type Rows = map<RowId, Row>

  /** A delivery unit: the original message, or one batch, to one (folded) domain. */
  datatype Unit = Original(domain: Text) | AddTo(batch: nat, domain: Text)

  predicate IsRow(m: Mail, id: RowId) {
    match id
    case To(a) => a in m.to
    case Added(b, a) => b < |m.batches| && a in m.batches[b].addTo
    case Notice(b, _) => b < |m.batches|
  }

  /** The time a row's age counts from. */
  function Age(m: Mail, id: RowId): real
    requires IsRow(m, id)
  {
    if id.To? then m.sent else m.batches[id.batch].time
  }

  /** The domain of an address, folded. */
  function Domain(fold: Text -> Text, t: Text): Option<Text> {
    var at := Parser.LastIndex(t, Header.AT);
    if at < 0 then None else Some(fold(t[at + 1..]))
  }

  /** Every recipient entry of the unit's wire header: to, then the batch's own. */
  function Listed(m: Mail, u: Unit): seq<Text> {
    m.to + (if u.AddTo? && u.batch < |m.batches| then m.batches[u.batch].addTo else [])
  }

  function OnDomain(fold: Text -> Text, addrs: seq<Text>, d: Text): seq<Text> {
    if addrs == [] then []
    else
      OnDomain(fold, addrs[..|addrs| - 1], d) +
      (if Domain(fold, addrs[|addrs| - 1]) == Some(d) then [addrs[|addrs| - 1]] else [])
  }

  /** The entries the unit expects one code each for. */
  function Recipients(fold: Text -> Text, m: Mail, u: Unit): seq<Text> { OnDomain(fold, Listed(m, u), u.domain) }

  /** The rows a unit may lock. */
  predicate Mine(fold: Text -> Text, u: Unit, id: RowId) {
    match u
    case Original(d) => id.To? && Domain(fold, id.addr) == Some(d)
    case AddTo(b, d) => (id.Added? && id.batch == b && Domain(fold, id.addr) == Some(d)) || id == Notice(b, d)
  }

  /** The table of recipient rows a unit updates. */
  predicate InTable(addTo: bool, id: RowId) { if addTo then id.Added? else id.To? }

  // ---- what one delivery unit records ----

  /** updateRecipient matches the rows of one table by address, whatever their batch. */
  predicate Matches(addTo: bool, addr: Text, id: RowId) { InTable(addTo, id) && id.addr == addr }

  function UpdateAddress(rows: Rows, addTo: bool, addr: Text, at: real, o: Outcome): Rows {
    map id | id in rows :: if Matches(addTo, addr, id) then Record(rows[id], at, o) else rows[id]
  }

  /** What happened on the network. */
  datatype Network =
    | Forbidden                                       // recordUnitInvalid: not to be sent at all
    | NoAnswer                                        // no address, no connection, or no response byte
    | Answer(initial: byte, dataSent: bool, codes: Option<bytes>)

  const CONTINUE: byte := 64
  const SKIP_DATA: byte := 65
  const ACCEPT_ADD_TO: byte := 11
  const ACCEPT: byte := 200

  /** The outcome recorded for every locked recipient alike, or None when
      per-recipient codes were read. */
  function CommonOutcome(addTo: bool, n: nat, net: Network): Option<Outcome> {
    match net
    case Forbidden => Some(Outcome(1, false))
    case NoAnswer => Some(Outcome(NO_RESPONSE, false))
    case Answer(initial, dataSent, codes) =>
      if initial == CONTINUE || (initial == SKIP_DATA && addTo) then
        if (initial == CONTINUE && !dataSent) || codes.None? || |codes.value| != n
        then Some(Outcome(NO_RESPONSE, false))
        else None
      else if initial == ACCEPT_ADD_TO && addTo then Some(Outcome(initial, true))
      else if 1 <= initial <= 10 then Some(Outcome(initial, false))
      else Some(Outcome(NO_RESPONSE, false))
  }

  /** The codes of the list entries spelled like the row, in list order. */
  function CodesFor(fold: Text -> Text, recips: seq<Text>, locked: set<Text>, codes: bytes, addr: Text): seq<Outcome>
    requires |codes| == |recips|
  {
    if recips == [] then []
    else
      var n := |recips| - 1;
      CodesFor(fold, recips[..n], locked, codes[..n], addr) +
      (if recips[n] == addr && fold(addr) in locked then [Outcome(codes[n], codes[n] == ACCEPT)] else [])
  }

  function RecordAll(r: Row, at: real, os: seq<Outcome>): Row {
    if os == [] then r else Record(RecordAll(r, at, os[..|os| - 1]), at, os[|os| - 1])
  }

  function Folded(fold: Text -> Text, locked: set<Text>): set<Text> { set a | a in locked :: fold(a) }

  /** Everything deliverUnit records for rows of its table with this address. */
  function UnitOutcomes(fold: Text -> Text, addTo: bool, recips: seq<Text>, locked: set<Text>, net: Network,
                        addr: Text): seq<Outcome> {
    match CommonOutcome(addTo, |recips|, net)
    case Some(o) => if addr in locked then [o] else []
    case None => CodesFor(fold, recips, Folded(fold, locked), net.codes.value, addr)
  }

  /** The outcome of a locked notify row. */
  function NotifyOutcome(addTo: bool, n: nat, net: Network): Outcome {
    match CommonOutcome(addTo, n, net)
    case Some(o) => o
    case None => Outcome(net.initial, true)
  }

  function Addresses(locked: set<RowId>): set<Text> { set id | id in locked && !id.Notice? :: id.addr }

  /** Everything a unit that locked these rows records for one row. */
  function Writes(fold: Text -> Text, m: Mail, u: Unit, locked: set<RowId>, net: Network, id: RowId): seq<Outcome> {
    if id.Notice? then
      if id in locked then [NotifyOutcome(u.AddTo?, |Recipients(fold, m, u)|, net)] else []
    else if InTable(u.AddTo?, id) then
      UnitOutcomes(fold, u.AddTo?, Recipients(fold, m, u), Addresses(locked), net, id.addr)
    else []
  }

  /** The rows after the unit. */
  function Recorded(fold: Text -> Text, m: Mail, rows: Rows, u: Unit, locked: set<RowId>, net: Network,
                    at: real): Rows {
    map id | id in rows :: RecordAll(rows[id], at, Writes(fold, m, u, locked, net, id))
  }

  lemma {:induction false} RecordOne(r: Row, at: real, o: Outcome)
    ensures RecordAll(r, at, [o]) == Record(r, at, o)
  {
    assert [o][..0] == [];
    assert RecordAll(r, at, [o][..0]) == r;
  }

  lemma {:induction false} OneCodeMore(fold: Text -> Text, recips: seq<Text>, locked: set<Text>, codes: bytes,
                                       addr: Text,
                                       i: nat, r: Row, at: real)
    requires i < |recips| == |codes|
    ensures var before := RecordAll(r, at, CodesFor(fold, recips[..i], locked, codes[..i], addr));
      RecordAll(r, at, CodesFor(fold, recips[..i + 1], locked, codes[..i + 1], addr)) ==
        if recips[i] == addr && fold(addr) in locked
        then Record(before, at, Outcome(codes[i], codes[i] == ACCEPT)) else before
  {
    assert recips[..i + 1][..i] == recips[..i] && codes[..i + 1][..i] == codes[..i];
    var prior := CodesFor(fold, recips[..i], locked, codes[..i], addr);
    var o := Outcome(codes[i], codes[i] == ACCEPT);
    assert (prior + [o])[..|prior|] == prior && prior + [] == prior;
  }

  function Occurrences(recips: seq<Text>, addr: Text): nat {
    if recips == [] then 0
    else Occurrences(recips[..|recips| - 1], addr) + (if recips[|recips| - 1] == addr then 1 else 0)
  }

  /** Zero exactly for an address that is not listed. */
  lemma {:induction false} NotListed(recips: seq<Text>, addr: Text)
    ensures Occurrences(recips, addr) == 0 <==> addr !in recips
  {
    if recips != [] {
      NotListed(recips[..|recips| - 1], addr);
      assert recips == recips[..|recips| - 1] + [recips[|recips| - 1]];
    }
  }

  lemma {:induction false} OneCodePerEntry(fold: Text -> Text, recips: seq<Text>, locked: set<Text>, codes: bytes,
                                           addr: Text)
    requires |codes| == |recips|
    ensures |CodesFor(fold, recips, locked, codes, addr)| ==
            if fold(addr) in locked then Occurrences(recips, addr) else 0
  {
    if recips != [] {
      var n := |recips| - 1;
      OneCodePerEntry(fold, recips[..n], locked, codes[..n], addr);
    }
  }

  /** Every exit records exactly one outcome for a locked row, when no codes were
      read; with codes, it records one for each time the header lists the
      address. */
  lemma {:induction false} OutcomesRecorded(fold: Text -> Text, addTo: bool, recips: seq<Text>, locked: set<Text>,
                                            net: Network, addr: Text)
    requires addr in locked
    ensures |UnitOutcomes(fold, addTo, recips, locked, net, addr)| ==
            if CommonOutcome(addTo, |recips|, net).Some? then 1 else Occurrences(recips, addr)
  {
    if CommonOutcome(addTo, |recips|, net).None? {
      OneCodePerEntry(fold, recips, Folded(fold, locked), net.codes.value, addr);
    }
  }

  // ---- what each answer means for a locked row ----

  /** The answer asks the unit to go on and read codes. */
  predicate GoesOn(addTo: bool, initial: byte) { initial == 64 || (initial == 65 && addTo) }

  /** It went on, sent what it had to and read a code for every entry. */
  predicate GotCodes(addTo: bool, n: nat, net: Network) {
    net.Answer? && GoesOn(addTo, net.initial) && (net.initial == 64 ==> net.dataSent) &&
    net.codes.Some? && |net.codes.value| == n
  }

  predicate Refusal(net: Network) { net.Answer? && 1 <= net.initial <= 10 }
  predicate Informed(addTo: bool, net: Network) { net.Answer? && net.initial == 11 && addTo }

  /** The one outcome without codes: a refusal is recorded with its own code, 11 as a
      delivery, a unit not to be sent with 1; anything else, be it silence, a code
      the protocol does not allow, data not sent or codes missing, is no response. */
  function WithoutCodes(addTo: bool, net: Network): Outcome {
    if net.Forbidden? then Outcome(1, false)
    else if Refusal(net) then Outcome(net.initial, false)
    else if Informed(addTo, net) then Outcome(11, true)
    else Outcome(-1, false)
  }

  /** What is recorded for a locked address on every exit without codes. */
  lemma {:induction false} LockedOutcome(fold: Text -> Text, addTo: bool, recips: seq<Text>, locked: set<Text>,
                                         net: Network, addr: Text)
    requires addr in locked && !GotCodes(addTo, |recips|, net)
    ensures UnitOutcomes(fold, addTo, recips, locked, net, addr) == [WithoutCodes(addTo, net)]
  {
  }

  /** With codes, each listing of a locked address is recorded with its own code. */
  lemma {:induction false} CodesRecorded(fold: Text -> Text, addTo: bool, recips: seq<Text>, locked: set<Text>,
                                         net: Network, addr: Text)
    requires addr in locked && GotCodes(addTo, |recips|, net)
    ensures UnitOutcomes(fold, addTo, recips, locked, net, addr) == ListedCodes(recips, net.codes.value, addr)
  {
    assert fold(addr) in Folded(fold, locked);
    ListedAlike(fold, recips, Folded(fold, locked), net.codes.value, addr);
  }

  /** The codes of the entries that are this address: delivered exactly for 200. */
  function ListedCodes(recips: seq<Text>, codes: bytes, addr: Text): seq<Outcome>
    requires |codes| == |recips|
  {
    if recips == [] then []
    else if recips[0] == addr then [Outcome(codes[0], codes[0] == 200)] + ListedCodes(recips[1..], codes[1..], addr)
    else ListedCodes(recips[1..], codes[1..], addr)
  }

  lemma {:induction false} ListedSnoc(recips: seq<Text>, codes: bytes, addr: Text, last: Text, code: byte)
    requires |codes| == |recips|
    ensures ListedCodes(recips + [last], codes + [code], addr) ==
            ListedCodes(recips, codes, addr) + (if last == addr then [Outcome(code, code == 200)] else [])
    decreases |recips|
  {
    var rs, cs := recips + [last], codes + [code];
    if recips == [] {
      assert rs[1..] == [] && cs[1..] == [];
    } else {
      assert rs[1..] == recips[1..] + [last] && cs[1..] == codes[1..] + [code];
      ListedSnoc(recips[1..], codes[1..], addr, last, code);
    }
  }

  lemma {:induction false} ListedAlike(fold: Text -> Text, recips: seq<Text>, locked: set<Text>, codes: bytes,
                                       addr: Text)
    requires |codes| == |recips| && fold(addr) in locked
    ensures CodesFor(fold, recips, locked, codes, addr) == ListedCodes(recips, codes, addr)
  {
    if recips != [] {
      var n := |recips| - 1;
      ListedAlike(fold, recips[..n], locked, codes[..n], addr);
      ListedSnoc(recips[..n], codes[..n], addr, recips[n], codes[n]);
      assert recips == recips[..n] + [recips[n]] && codes == codes[..n] + [codes[n]];
    }
  }

  /** A locked notify row gets the same outcome as the recipients without codes, and
      counts as informed, with the initial code, once codes were read. */
  lemma {:induction false} NoticeOutcome(fold: Text -> Text, m: Mail, u: Unit, locked: set<RowId>, net: Network,
                                         id: RowId)
    requires id.Notice? && id in locked
    ensures Writes(fold, m, u, locked, net, id) ==
      [if GotCodes(u.AddTo?, |Recipients(fold, m, u)|, net) then Outcome(net.initial, true)
       else WithoutCodes(u.AddTo?, net)]
  {
  }

  /** What a recorded outcome leaves in the row: a delivery its time and code; a failure
      its time, its code and one attempt more. Nothing else changes. */
  lemma {:induction false} RecordedRow(r: Row, at: real, o: Outcome)
    ensures var q := RecordAll(r, at, [o]);
      q.code == Some(o.code) &&
      (o.delivered ==> q.delivered == Some(at) && q.lastAttempt == r.lastAttempt && q.attempts == r.attempts) &&
      (!o.delivered ==> q.delivered == r.delivered && q.lastAttempt == Some(at) && q.attempts == r.attempts + 1)
  {
    RecordOne(r, at, o);
  }

  /** A row is tried again exactly when it is undelivered, without a code or with one of
      -1, 3, 5 and 101, its last failure is longer ago than the doubled-up
      interval or the maximum age, whichever is less, and it is not too old. */
  lemma {:induction false} PendingIff(c: Config, r: Row, sent: real, now: real)
    ensures IsPending(c, r, sent, now) <==>
      r.delivered == None && (r.code.None? || r.code.value in {-1, 3, 5, 101}) && now - sent < c.maxAge &&
      (r.lastAttempt.None? || now - r.lastAttempt.value > c.maxAge ||
       now - r.lastAttempt.value > c.interval * (Pow2(if r.attempts <= 1 then 0 else r.attempts - 1) as real))
  {
    WaitIsExponential(c, if r.attempts == 0 then 0 else r.attempts - 1);
  }

  /** An answer with a code for every entry, none of them an acceptance. */
  function AllRefused(recips: seq<Text>): Network { Answer(CONTINUE, true, Some(seq(|recips|, i => 0))) }

  /** So it is exactly one, whatever happens, if and only if the header lists the
      address exactly once. */
  lemma {:induction false} ExactlyOneIff(fold: Text -> Text, addTo: bool, recips: seq<Text>, locked: set<Text>,
                                         addr: Text)
    requires addr in locked
    ensures (forall net: Network :: |UnitOutcomes(fold, addTo, recips, locked, net, addr)| == 1) <==>
            Occurrences(recips, addr) == 1
  {
    forall net: Network
      ensures |UnitOutcomes(fold, addTo, recips, locked, net, addr)| ==
              if CommonOutcome(addTo, |recips|, net).Some? then 1 else Occurrences(recips, addr)
    {
      OutcomesRecorded(fold, addTo, recips, locked, net, addr);
    }
    assert CommonOutcome(addTo, |recips|, AllRefused(recips)).None?;
  }

  /** An address in two batches of one message: recording for one batch changes the
      other's row, even after that was delivered; the row in msg_to is left alone. */
  lemma {:induction false} OtherBatchDisturbed(addr: Text, at: real)
    ensures var delivered := Row(Some(0.0), None, Some(200), 0);
      var rows := map[To(addr) := delivered, Added(1, addr) := FRESH, Added(2, addr) := delivered];
      var after := UpdateAddress(rows, true, addr, at, Outcome(NO_RESPONSE, false));
      after[Added(2, addr)] != delivered && after[To(addr)] == delivered
  {
  }

  /** A unit leaves a row alone, whatever happens, exactly when the row is a notify row
      it did not lock, or in the other table, or its address is neither locked
      nor listed under a spelling of a locked one. */
  lemma {:induction false} UndisturbedIff(fold: Text -> Text, m: Mail, u: Unit, locked: set<RowId>, id: RowId)
    ensures (forall net: Network :: Writes(fold, m, u, locked, net, id) == []) <==>
            if id.Notice? then id !in locked
            else
              !InTable(u.AddTo?, id) ||
              (id.addr !in Addresses(locked) &&
               (id.addr !in Recipients(fold, m, u) || fold(id.addr) !in Folded(fold, Addresses(locked))))
  {
    if id.Notice? {
      assert Writes(fold, m, u, locked, NoAnswer, id) == [] <==> id !in locked;
    } else if InTable(u.AddTo?, id) {
      NoOutcomeIff(fold, u.AddTo?, Recipients(fold, m, u), Addresses(locked), id.addr);
      assert forall net: Network ::
        Writes(fold, m, u, locked, net, id) ==
        UnitOutcomes(fold, u.AddTo?, Recipients(fold, m, u), Addresses(locked), net, id.addr);
    }
  }

  lemma {:induction false} NoOutcomeIff(fold: Text -> Text, addTo: bool, recips: seq<Text>, locked: set<Text>,
                                        addr: Text)
    ensures (forall net: Network :: UnitOutcomes(fold, addTo, recips, locked, net, addr) == []) <==>
            addr !in locked && (addr !in recips || fold(addr) !in Folded(fold, locked))
  {
    NotListed(recips, addr);
    if addr in locked {
      OutcomesRecorded(fold, addTo, recips, locked, NoAnswer, addr);
    } else {
      forall net: Network | CommonOutcome(addTo, |recips|, net).None?
        ensures |UnitOutcomes(fold, addTo, recips, locked, net, addr)| ==
                if fold(addr) in Folded(fold, locked) then Occurrences(recips, addr) else 0
      {
        OneCodePerEntry(fold, recips, Folded(fold, locked), net.codes.value, addr);
      }
      assert CommonOutcome(addTo, |recips|, AllRefused(recips)).None?;
    }
  }
}
