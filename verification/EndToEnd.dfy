/** The exchange and the delivery rows together: what the sender records after any
    run of the protocol, against what the receiver did. */
module EndToEnd {
  import opened Prelude
  import opened Header
  import Parser
  import opened Codec
  import opened Identity
  import opened Receiver
  import opened ReceiverProofs
  import opened Exchange
  import opened ExchangeProofs
  import opened ExchangeRefines
  import D = Delivery

  /** What deliverUnit saw on the network, once it has ended. */
  function NetworkOf(a: Sender): Option<D.Network> {
    match a
    case Refused(code) => Some(D.Answer(code, false, None))
    case Notified => Some(D.Answer(ACCEPT_ADD_TO, false, None))
    case Violation(code) => Some(D.Answer(code, false, None))
    case Finished(first, codes) => Some(D.Answer(first, true, Some(codes)))
    case NoResponse => Some(D.NoAnswer)
    case Idle => None
    case AwaitCode => None
    case AwaitCodes(_) => None
  }

  function Texts(addrs: seq<Address>): seq<bytes> {
    seq(|addrs|, i requires 0 <= i < |addrs| => AddressText(addrs[i]))
  }

  /** The list of deliverUnit: one text for each entry on the target domain. */
  function Recipients(c: Setup): seq<bytes> { Texts(Expected(c)) }

  /** What the unit records for rows of an address. */
  function Recorded(c: Setup, net: D.Network, locked: set<bytes>, addr: bytes): seq<D.Outcome> {
    D.UnitOutcomes(c.w.env.fold, c.m.h.flags.hasAddTo, Recipients(c), locked, net, addr)
  }

  // ---- the code of one entry ----

  /** An address listed once, at i, is recorded with the i-th code. */
  lemma {:induction false} CodeOfEntry(fold: bytes -> bytes, recips: seq<bytes>, locked: set<bytes>, codes: bytes,
                                       i: nat)
    requires i < |recips| == |codes| && fold(recips[i]) in locked && D.Occurrences(recips, recips[i]) == 1
    ensures D.CodesFor(fold, recips, locked, codes, recips[i]) == [D.Outcome(codes[i], codes[i] == ACCEPT)]
    decreases |recips|
  {
    var n, addr := |recips| - 1, recips[i];
    if i < n {
      D.NotListed(recips[..n], addr);
      assert recips[..n][i] == addr;
      CodeOfEntry(fold, recips[..n], locked, codes[..n], i);
    } else {
      D.OneCodePerEntry(fold, recips[..n], locked, codes[..n], addr);
    }
  }

  lemma {:induction false} AcceptedHas(addrs: seq<Address>, codes: bytes, hi: nat, i: nat)
    requires i < hi <= |codes| <= |addrs| && codes[i] == ACCEPT
    ensures addrs[i] in Accepted(addrs, codes, 0, hi)
    decreases hi
  {
    if i < hi - 1 { AcceptedHas(addrs, codes, hi - 1, i); }
  }

  // ---- every run ----

  /** The row of the i-th entry is locked, and the list names its address once. */
  ghost predicate LockedOnce(c: Setup, locked: set<bytes>, i: nat) {
    i < |Expected(c)| && Recipients(c)[i] in locked && D.Occurrences(Recipients(c), Recipients(c)[i]) == 1
  }

  /** With a code read for every entry, the outcomes are those of the codes. */
  lemma {:induction false} CodesRecorded(fold: bytes -> bytes, addTo: bool, recips: seq<bytes>, locked: set<bytes>,
                                         first: byte, codes: bytes, i: nat)
    requires i < |recips| == |codes| && recips[i] in locked && D.Occurrences(recips, recips[i]) == 1
    requires first == CONTINUE || (first == SKIP_DATA && addTo)
    ensures D.UnitOutcomes(fold, addTo, recips, locked, D.Answer(first, true, Some(codes)), recips[i]) ==
            [D.Outcome(codes[i], codes[i] == ACCEPT)]
  {
    assert fold(recips[i]) in D.Folded(fold, locked);
    CodeOfEntry(fold, recips, D.Folded(fold, locked), codes, i);
  }

  /** The sender recorded exactly the receiver's i-th code. */
  ghost predicate RecordsCode(c: Setup, s: State, locked: set<bytes>, i: nat)
    requires s.a.Finished? && i < |Expected(c)|
  {
    s.b.Done? && |s.b.finish.codes| == |Expected(c)| &&
    Recorded(c, NetworkOf(s.a).value, locked, Recipients(c)[i]) ==
      [D.Outcome(s.b.finish.codes[i], s.b.finish.codes[i] == ACCEPT)]
  }

  lemma {:induction false} FinishedAgrees(c: Setup, s: State, locked: set<bytes>, i: nat)
    requires EndOk(c, s) && s.a.Finished? && LockedOnce(c, locked, i)
    ensures RecordsCode(c, s, locked, i)
  {
    CodesRecorded(c.w.env.fold, c.m.h.flags.hasAddTo, Recipients(c), locked, s.a.first, s.a.codes, i);
  }

  /** In every run that ends with codes, the sender records for the i-th entry of
      its list exactly the code the receiver computed for the i-th of its own,
      and the two lists are the same. */
  lemma {:induction false} RecordedIsComputed(c: Setup, steps: seq<Step>, locked: set<bytes>, i: nat)
    requires SetupOk(c) && Execution(c, steps).a.Finished? && LockedOnce(c, locked, i)
    ensures RecordsCode(c, Execution(c, steps), locked, i)
    ensures Expected(c) == LocalRecipients(c.w.env, c.m.h, c.w.env.domain)
  {
    RunEnds(c, steps);
    FinishedAgrees(c, Execution(c, steps), locked, i);
    HostsAgree(c, steps);
  }

  /** What the unit records for the i-th entry is one outcome, and a delivery only
      if the receiver accepted that entry, committed it and charged for it. */
  ghost predicate Truthful(c: Setup, s: State, locked: set<bytes>, i: nat)
    requires NetworkOf(s.a).Some? && i < |Expected(c)|
  {
    var os := Recorded(c, NetworkOf(s.a).value, locked, Recipients(c)[i]);
    |os| == 1 &&
    (os[0].delivered ==>
      s.b.Done? && s.b.finish.committed && i < |s.b.finish.codes| && s.b.finish.codes[i] == ACCEPT &&
      Expected(c)[i] in s.b.finish.charged)
  }

  /** In an add-to the locked rows are those of added recipients. */
  ghost predicate LockedKind(c: Setup, i: nat)
    requires i < |Expected(c)|
  {
    c.m.h.flags.hasAddTo ==> Expected(c)[i] in OnDomainOf(c.w.env, c.m.h.addTo, c.target)
  }

  lemma {:induction false} FinishedTruthful(c: Setup, s: State, locked: set<bytes>, i: nat)
    requires EndOk(c, s) && s.a.Finished? && LockedOnce(c, locked, i)
    ensures Truthful(c, s, locked, i)
  {
    FinishedAgrees(c, s, locked, i);
    if s.a.codes[i] == ACCEPT { AcceptedHas(Expected(c), s.a.codes, |Expected(c)|, i); }
  }

  lemma {:induction false} UnfinishedTruthful(c: Setup, s: State, locked: set<bytes>, i: nat)
    requires Ready(c) && EndOk(c, s) && !s.a.Finished? && NetworkOf(s.a).Some?
    requires LockedOnce(c, locked, i) && LockedKind(c, i)
    ensures Truthful(c, s, locked, i)
  {
    NotNotified(c, s, i);
    FailureRecorded(c.w.env.fold, c.m.h.flags.hasAddTo, Recipients(c), locked, NetworkOf(s.a).value, Recipients(c)[i]);
  }

  /** 11 is not answered to a unit that has an added recipient at the receiver. */
  lemma {:induction false} NotNotified(c: Setup, s: State, i: nat)
    requires Ready(c) && EndOk(c, s) && i < |Expected(c)| && LockedKind(c, i)
    ensures !s.a.Notified?
  {
    SameDomain(c.w.env, c.m.h.addTo, c.target, c.w.env.domain);
  }

  lemma {:induction false} FailureRecorded(fold: bytes -> bytes, addTo: bool, recips: seq<bytes>, locked: set<bytes>,
                                           net: D.Network, addr: bytes)
    requires addr in locked && (net.NoAnswer? || (net.Answer? && 1 <= net.initial <= 10))
    ensures var os := D.UnitOutcomes(fold, addTo, recips, locked, net, addr); |os| == 1 && !os[0].delivered
  {
  }

  /** However the exchange runs, with failures of either host at any point and other
      deliveries beside it: a row recorded as delivered stands for an entry the
      receiver accepted, committed to its store and charged for. */
  lemma {:induction false} DeliveredMeansStored(c: Setup, steps: seq<Step>, locked: set<bytes>, i: nat)
    requires SetupOk(c) && NetworkOf(Execution(c, steps).a).Some? && LockedOnce(c, locked, i) && LockedKind(c, i)
    ensures Truthful(c, Execution(c, steps), locked, i)
  {
    var s := Execution(c, steps);
    RunEnds(c, steps);
    SetupIsReady(c);
    if s.a.Finished? { FinishedTruthful(c, s, locked, i); } else { UnfinishedTruthful(c, s, locked, i); }
  }

  // ---- refusals, notifications and silence ----

  /** What a run that ended without codes leaves in an undelivered row. */
  ghost predicate LeavesRow(c: Setup, a: Sender, locked: set<bytes>, addr: bytes, o: D.Outcome, final: bool)
    requires NetworkOf(a).Some?
  {
    Recorded(c, NetworkOf(a).value, locked, addr) == [o] &&
    forall r: D.Row, at: real :: r.delivered == None ==>
      var q := D.RecordAll(r, at, [o]);
      q.code == Some(o.code) && (q.delivered == if o.delivered then Some(at) else None) && (D.Final(q) <==> final)
  }

  lemma {:induction false} RecordsOne(c: Setup, a: Sender, locked: set<bytes>, addr: bytes, o: D.Outcome)
    requires addr in locked && NetworkOf(a).Some? && !a.Finished?
    requires o == D.WithoutCodes(c.m.h.flags.hasAddTo, NetworkOf(a).value)
    requires !D.GotCodes(c.m.h.flags.hasAddTo, |Recipients(c)|, NetworkOf(a).value)
    ensures LeavesRow(c, a, locked, addr, o, o.delivered || o.code !in {-1, 3, 5, 101})
  {
    D.LockedOutcome(c.w.env.fold, c.m.h.flags.hasAddTo, Recipients(c), locked, NetworkOf(a).value, addr);
    forall r: D.Row, at: real | r.delivered == None
      ensures var q := D.RecordAll(r, at, [o]);
        q.code == Some(o.code) && (q.delivered == if o.delivered then Some(at) else None) &&
        (D.Final(q) <==> o.delivered || o.code !in {-1, 3, 5, 101})
    {
      D.RecordedRow(r, at, o);
    }
  }

  /** A run that ends in a refusal records, for every locked address, the very code the
      receiver wrote, and nothing else was written; an undelivered row is then final
      unless the code is 3 or 5. */
  lemma {:induction false} RefusalRecorded(c: Setup, steps: seq<Step>, locked: set<bytes>, addr: bytes)
    requires SetupOk(c) && Execution(c, steps).a.Refused? && addr in locked
    ensures var s := Execution(c, steps);
      s.wrote == [s.a.code] && 1 <= s.a.code <= 10 &&
      LeavesRow(c, s.a, locked, addr, D.Outcome(s.a.code, false), s.a.code != 3 && s.a.code != 5)
  {
    var a := Execution(c, steps).a;
    HeardIsWritten(c, steps);
    RunEnds(c, steps);
    RecordsOne(c, a, locked, addr, D.Outcome(a.code, false));
  }

  /** A run that ends with 11 records a delivery with that code, for good. */
  lemma {:induction false} NotificationRecorded(c: Setup, steps: seq<Step>, locked: set<bytes>, addr: bytes)
    requires SetupOk(c) && Execution(c, steps).a.Notified? && addr in locked
    ensures var s := Execution(c, steps);
      s.wrote == [11] && LeavesRow(c, s.a, locked, addr, D.Outcome(11, true), true)
  {
    HeardIsWritten(c, steps);
    RunEnds(c, steps);
    RecordsOne(c, Notified, locked, addr, D.Outcome(11, true));
  }

  /** A run without a usable answer records -1, and an undelivered row is tried again. */
  lemma {:induction false} SilenceRecorded(c: Setup, steps: seq<Step>, locked: set<bytes>, addr: bytes)
    requires Execution(c, steps).a.NoResponse? && addr in locked
    ensures LeavesRow(c, Execution(c, steps).a, locked, addr, D.Outcome(-1, false), false)
  {
    RecordsOne(c, NoResponse, locked, addr, D.Outcome(-1, false));
  }

  // ---- the exchange as a delivery unit ----

  /** The stored message whose wire form is sent: the texts of its to, and of the batch's
      added recipients, to the folded target domain. */
  ghost predicate UnitFor(c: Setup, m: D.Mail, u: D.Unit) {
    m.to == Texts(c.m.h.to) && u.domain == c.w.env.fold(c.target) && (u.AddTo? <==> c.m.h.flags.hasAddTo) &&
    (u.AddTo? ==> u.batch < |m.batches| && m.batches[u.batch].addTo == Texts(c.m.h.addTo))
  }

  ghost predicate PlainDomains(addrs: seq<Address>) { forall a :: a in addrs ==> AT !in a.domain }

  lemma {:induction false} DomainOfText(fold: bytes -> bytes, a: Address)
    requires AT !in a.domain
    ensures D.Domain(fold, AddressText(a)) == Some(fold(a.domain))
  {
    assert Parser.LastIndex(AddressText(a), AT) == 1 + |a.user| by { LastAt([AT] + a.user, a.domain); }
    AddressTextParts(a);
  }

  lemma {:induction false} OnDomainTexts(env: Parser.Env, addrs: seq<Address>, d: bytes)
    requires PlainDomains(addrs)
    ensures D.OnDomain(env.fold, Texts(addrs), env.fold(d)) == Texts(OnDomainOf(env, addrs, d))
  {
    if addrs != [] {
      var n := |addrs| - 1;
      var init, last := OnDomainOf(env, addrs[..n], d), addrs[n];
      OnDomainTexts(env, addrs[..n], d);
      assert Texts(addrs)[..n] == Texts(addrs[..n]) && Texts(addrs)[n] == AddressText(last);
      DomainOfText(env.fold, last);
      assert Texts(init + [last]) == Texts(init) + [AddressText(last)];
    }
  }

  lemma {:induction false} OnDomainAppends(fold: bytes -> bytes, a: seq<bytes>, b: seq<bytes>, d: bytes)
    ensures D.OnDomain(fold, a + b, d) == D.OnDomain(fold, a, d) + D.OnDomain(fold, b, d)
  {
    if b == [] {
      assert a + b == a;
    } else {
      var n := |b| - 1;
      assert (a + b)[..|a + b| - 1] == a + b[..n] && (a + b)[|a + b| - 1] == b[n];
      OnDomainAppends(fold, a, b[..n], d);
    }
  }

  lemma {:induction false} SentAddressesPlain(c: Setup)
    requires SetupOk(c)
    ensures PlainDomains(c.m.h.to) && PlainDomains(c.m.h.addTo)
  {
    forall a | a in c.m.h.to || a in c.m.h.addTo ensures AT !in a.domain { DomainHasNoAt(a.domain); }
  }

  /** The list the exchange expects codes for is the list its delivery unit reads off the
      stored rows. */
  lemma {:induction false} SameList(c: Setup, m: D.Mail, u: D.Unit)
    requires SetupOk(c) && UnitFor(c, m, u)
    ensures D.Recipients(c.w.env.fold, m, u) == Recipients(c)
  {
    SentAddressesPlain(c);
    ListAgrees(c, m, u);
  }

  lemma {:induction false} ListAgrees(c: Setup, m: D.Mail, u: D.Unit)
    requires PlainDomains(c.m.h.to) && PlainDomains(c.m.h.addTo) && UnitFor(c, m, u)
    ensures D.Recipients(c.w.env.fold, m, u) == Recipients(c)
  {
    ListedTexts(c.w.env, c.m.h.to, if u.AddTo? then c.m.h.addTo else [], c.target);
    assert Texts([]) == [];
  }

  lemma {:induction false} ListedTexts(env: Parser.Env, to: seq<Address>, addTo: seq<Address>, d: bytes)
    requires PlainDomains(to) && PlainDomains(addTo)
    ensures D.OnDomain(env.fold, Texts(to) + Texts(addTo), env.fold(d)) ==
            Texts(OnDomainOf(env, to, d) + OnDomainOf(env, addTo, d))
  {
    OnDomainTexts(env, to, d);
    OnDomainTexts(env, addTo, d);
    OnDomainAppends(env.fold, Texts(to), Texts(addTo), env.fold(d));
    TextsAppend(OnDomainOf(env, to, d), OnDomainOf(env, addTo, d));
  }

  lemma {:induction false} TextsAppend(x: seq<Address>, y: seq<Address>)
    ensures Texts(x + y) == Texts(x) + Texts(y)
  {
  }

  /** So what a run of the exchange records is what finishing its unit writes to the row. */
  lemma {:induction false} RecordedIsWritten(c: Setup, m: D.Mail, u: D.Unit, locked: set<D.RowId>, net: D.Network,
                                             id: D.RowId)
    requires SetupOk(c) && UnitFor(c, m, u) && D.InTable(u.AddTo?, id)
    ensures D.Writes(c.w.env.fold, m, u, locked, net, id) == Recorded(c, net, D.Addresses(locked), id.addr)
  {
    SameList(c, m, u);
  }

  // ---- where the setup's assumption on batches comes from ----

  /** The sender seals a batch from any snapshot of a message it holds, and the
      receiver holds a message with the hash the batch names, with or without
      batches of its own and however old: then it reconstructs the sealed
      hash, as SetupOk asks. */
  lemma {:induction false} SealedBatchIsReconstructed(c: Setup, o: Wire, s: Wire, o': Wire, original: bytes, b: Batch)
    requires WellFormed(Library(c.w.env), o.h) && WellFormed(Library(c.w.env), o'.h)
    requires MessageHash(c.w.cr, o) == Some(original) && MessageHash(c.w.cr, o') == Some(original)
    requires NoCollision(c.w.cr, o, o') && SnapshotOf(s, o, original) && c.m == BatchWire(s, original, b)
    requires c.w.byHash(original).Found? && Keeps(c.w.byHash(original).value.wire, o', original)
    ensures MessageHash(c.w.cr, c.m).Some? &&
            Reconstruct(c.w.cr, c.m.h, c.w.byHash(c.m.h.pid).value.wire) == MessageHash(c.w.cr, c.m)
  {
    var stored := c.w.byHash(original).value.wire;
    KeepsPayload(stored, o', original);
    SealedIsReconstructed(c.w.cr, Library(c.w.env), o, s, o', stored, original, b);
    assert c.m.h.pid == original;
  }
}
