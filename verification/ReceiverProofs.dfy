/** What every run of the receiver writes, and what its codes mean. */
module ReceiverProofs {
  import opened Prelude
  import opened Many
  import opened Header
  import opened Parser
  import opened Codec
  import opened Identity
  import opened Receiver
  import SizeLimits

  // ---- codes of the header reader ----

  ghost predicate RefusesOnly<T>(p: Parse<T>, codes: set<byte>) { p.Refuse? ==> p.code in codes }

  lemma {:induction false} ManyRefuses<T(!new)>(read: Reader<T>, n: nat, acc: seq<T>, s: bytes, codes: set<byte>)
    requires forall a: seq<T>, t: bytes :: RefusesOnly(read(a, t), codes)
    ensures RefusesOnly(ReadMany(read, n, acc, s), codes)
    decreases n
  {
    if n > 0 {
      assert RefusesOnly(read(acc, s), codes);
      ManyStep(read, n, acc, s);
      if read(acc, s).Got? {
        ManyRefuses(read, n - 1, acc + [read(acc, s).value], read(acc, s).rest, codes);
      }
    }
  }

  lemma {:induction false} RoutingRefuses(env: Env, s: bytes)
    ensures RefusesOnly(ReadRouting(env, s), {INVALID})
  {
    var lead := ReadLead(s);
    if lead.Got? {
      var from := ReadAddress(env, lead.rest);
      if from.Got? {
        assert RefusesOnly(ReadTo(env, from.rest), {INVALID}) by { ToRefuses(env, from.rest); }
        var to := ReadTo(env, from.rest);
        if to.Got? {
          assert RefusesOnly(ReadAddTo(env, lead.value.flags, from.value, to.value, to.rest), {INVALID}) by {
            AddToRefuses(env, lead.value.flags, from.value, to.value, to.rest);
          }
        }
      }
    }
  }

  lemma {:induction false} AddressesRefuse(env: Env, refuse: bool, n: nat, s: bytes)
    ensures RefusesOnly(ReadAddresses(env, n, [], refuse, s), {INVALID})
  {
    ManyRefuses(AddressReader(env, refuse), n, [], s, {INVALID});
  }

  lemma {:induction false} ToRefuses(env: Env, s: bytes)
    ensures RefusesOnly(ReadTo(env, s), {INVALID})
  {
    forall refuse: bool, n: nat, t: bytes ensures RefusesOnly(ReadAddresses(env, n, [], refuse, t), {INVALID}) {
      AddressesRefuse(env, refuse, n, t);
    }
  }

  lemma {:induction false} AddToRefuses(env: Env, f: Flags, from: Address, to: seq<Address>, s: bytes)
    ensures RefusesOnly(ReadAddTo(env, f, from, to, s), {INVALID})
  {
    forall refuse: bool, n: nat, t: bytes ensures RefusesOnly(ReadAddresses(env, n, [], refuse, t), {INVALID}) {
      AddressesRefuse(env, refuse, n, t);
    }
  }

  lemma {:induction false} AttachmentsRefuse(env: Env, deflate: bool, sizes: Sizes, s: bytes)
    ensures RefusesOnly(ReadAttachmentList(env, deflate, sizes, s), {INVALID, TOO_BIG})
  {
    forall n: nat, t: bytes ensures RefusesOnly(ReadAttachments(env, n, [], t), {INVALID}) {
      ManyRefuses(AttachmentReader(env), n, [], t, {INVALID});
    }
  }

  lemma {:induction false} DescriptionRefuses(env: Env, f: Flags, s: bytes)
    ensures RefusesOnly(ReadDescription(env, f, s), {INVALID, PAST_TIME, FUTURE_TIME})
  {
  }

  lemma {:induction false} PayloadsRefuse(env: Env, f: Flags, s: bytes)
    ensures RefusesOnly(ReadPayloads(env, f, s), {INVALID, TOO_BIG})
  {
    var z := ReadSizes(f.deflate, s);
    if z.Got? { AttachmentsRefuse(env, f.deflate, z.value, z.rest); }
  }

  lemma {:induction false} HeaderRefuses(env: Env, s: bytes)
    ensures RefusesOnly(ReadHeader(env, s), {INVALID, TOO_BIG, PAST_TIME, FUTURE_TIME})
  {
    var r := ReadRouting(env, s);
    assert RefusesOnly(r, {INVALID}) by { RoutingRefuses(env, s); }
    if r.Got? {
      var f := r.value.lead.flags;
      var d := ReadDescription(env, f, r.rest);
      assert RefusesOnly(d, {INVALID, PAST_TIME, FUTURE_TIME}) by { DescriptionRefuses(env, f, r.rest); }
      if d.Got? {
        assert RefusesOnly(ReadPayloads(env, f, d.rest), {INVALID, TOO_BIG}) by { PayloadsRefuse(env, f, d.rest); }
      }
    }
  }

  /** The stream starts with good routing fields and then this time. */
  ghost predicate TimedAs(env: Env, s: bytes, t: bytes) {
    |t| == 8 &&
    exists r: Routing, rest: bytes :: RoutingOk(env, r) && s == EncodeRoutingPart(r) + (t + rest)
  }

  lemma {:induction false} TimedRead(env: Env, s: bytes, t: bytes)
    requires TimedAs(env, s, t)
    ensures var r := ReadRouting(env, s); r.Got? && |r.rest| >= 8 && r.rest[..8] == t
  {
    var r: Routing, rest: bytes :| RoutingOk(env, r) && s == EncodeRoutingPart(r) + (t + rest);
    RoutingComplete(env, r, t + rest);
    assert (t + rest)[..8] == t;
  }

  lemma {:induction false} ReadTimed(env: Env, s: bytes)
    requires ReadRouting(env, s).Got? && |ReadRouting(env, s).rest| >= 8
    ensures TimedAs(env, s, ReadRouting(env, s).rest[..8])
  {
    var r := ReadRouting(env, s);
    assert RoutingOk(env, r.value) && s == EncodeRoutingPart(r.value) + r.rest by { RoutingSound(env, s); }
    Halves(r.rest, 8);
  }

  lemma {:induction false} Halves(b: bytes, n: nat)
    requires n <= |b|
    ensures b == b[..n] + b[n..]
  {
  }

  ghost predicate IsPast(env: Env, t: bytes) { env.pastDelta > 0.0 && env.now - env.clock(t) > env.pastDelta }
  ghost predicate IsFuture(env: Env, t: bytes) { env.futureDelta > 0.0 && env.clock(t) - env.now > env.futureDelta }

  /** A header is refused with 7 exactly when, its routing good, its time is further back
      than allowed, and with 8 exactly when it is not, but further ahead. */
  lemma {:induction false} TimeRefusedIff(env: Env, s: bytes)
    ensures ReadHeader(env, s) == Refuse(PAST_TIME) <==> exists t :: TimedAs(env, s, t) && IsPast(env, t)
    ensures ReadHeader(env, s) == Refuse(FUTURE_TIME) <==>
            exists t :: TimedAs(env, s, t) && !IsPast(env, t) && IsFuture(env, t)
  {
    var r := ReadRouting(env, s);
    RoutingRefuses(env, s);
    forall t | TimedAs(env, s, t) ensures r.Got? && |r.rest| >= 8 && r.rest[..8] == t { TimedRead(env, s, t); }
    if r.Got? {
      if |r.rest| >= 8 { ReadTimed(env, s); }
      TimeDecides(env, s);
    }
  }

  lemma {:induction false} TimeDecides(env: Env, s: bytes)
    requires ReadRouting(env, s).Got?
    ensures var rest := ReadRouting(env, s).rest;
      (ReadHeader(env, s) == Refuse(PAST_TIME) <==> |rest| >= 8 && IsPast(env, rest[..8])) &&
      (ReadHeader(env, s) == Refuse(FUTURE_TIME) <==>
        |rest| >= 8 && !IsPast(env, rest[..8]) && IsFuture(env, rest[..8]))
  {
    var r := ReadRouting(env, s);
    var f := r.value.lead.flags;
    var d := ReadDescription(env, f, r.rest);
    DescriptionTime(env, f, r.rest);
    if d.Got? {
      assert RefusesOnly(ReadPayloads(env, f, d.rest), {INVALID, TOO_BIG}) by { PayloadsRefuse(env, f, d.rest); }
    }
    RefusalPasses(env, s);
  }

  lemma {:induction false} DescriptionTime(env: Env, f: Flags, s: bytes)
    ensures ReadDescription(env, f, s) == Refuse(PAST_TIME) <==> |s| >= 8 && IsPast(env, s[..8])
    ensures ReadDescription(env, f, s) == Refuse(FUTURE_TIME) <==>
            |s| >= 8 && !IsPast(env, s[..8]) && IsFuture(env, s[..8])
  {
  }

  /** After good routing the header is refused as its description is, or its payload part. */
  lemma {:induction false} RefusalPasses(env: Env, s: bytes)
    requires ReadRouting(env, s).Got?
    ensures var r := ReadRouting(env, s);
      var d := ReadDescription(env, r.value.lead.flags, r.rest);
      forall code: byte :: ReadHeader(env, s) == Refuse(code) <==>
        d == Refuse(code) || (d.Got? && ReadPayloads(env, r.value.lead.flags, d.rest) == Refuse(code))
  {
  }

  // ---- codes of admission ----

  lemma {:induction false} AdmitCodes(w: World, h: Header)
    ensures match Admit(w, h)
      case Drop => true
      case Reply(code) => code in {INVALID, PARENT_NOT_FOUND, TIME_TRAVEL, DUPLICATE}
      case Proceed(initial) =>
        initial in {CONTINUE, SKIP_DATA, ACCEPT_ADD_TO} && (initial != CONTINUE ==> h.addTo != []) &&
        (initial != ACCEPT_ADD_TO ==> LocalRecipients(w.env, h, w.env.domain) != []) &&
        (initial == ACCEPT_ADD_TO ==> OnDomainOf(w.env, h.addTo, w.env.domain) == [])
  {
    OnDomainOfEmpty(w.env, h.to, w.env.domain);
    OnDomainOfEmpty(w.env, h.addTo, w.env.domain);
  }

  lemma {:induction false} OpenCodes(w: World, h: Header, initial: byte)
    requires initial in {CONTINUE, SKIP_DATA, ACCEPT_ADD_TO}
    ensures match Open(w, h, initial)
      case Abort => true
      case Send(code, answer) =>
        code in {UNDISCLOSED, DUPLICATE, ACCEPT_ADD_TO, CONTINUE, SKIP_DATA} &&
        (code in {CONTINUE, SKIP_DATA, ACCEPT_ADD_TO} ==> code == initial) &&
        (answer.Some? ==> answer == w.challengeAnswer)
  {
  }

  // ---- what admission rests on (cmd/fmsgd/host.go:596-760) ----

  /** The message the add-to names is stored and retrievable here. */
  ghost predicate Stored(w: World, pid: bytes) { w.byHash(pid).Found? && w.byHash(pid).value.retrievable }

  ghost predicate AdderMayAdd(w: World, h: Header) {
    var p := w.byHash(h.pid);
    p.Found? && h.addToFrom.Some? &&
    (Key(w.env, h.addToFrom.value) == Key(w.env, p.value.wire.h.from) ||
     exists a :: a in p.value.wire.h.to && Key(w.env, a) == Key(w.env, h.addToFrom.value))
  }

  lemma {:induction false} AllReceivedMeans(w: World, hash: bytes, addrs: seq<Address>)
    ensures AllReceived(w, hash, addrs) == Some(true) <==> forall a :: a in addrs ==> w.received(hash, a) == Some(true)
  {
    if addrs != [] {
      AllReceivedMeans(w, hash, addrs[1..]);
      assert addrs == [addrs[0]] + addrs[1..];
    }
  }

  /** 10 after a challenge exactly when the message is not a notification and every
      local recipient already has it, by the challenged hash, or by pid for an add-to. */
  lemma {:induction false} DuplicateIff(w: World, h: Header, initial: byte, answer: bytes)
    requires initial in {CONTINUE, SKIP_DATA, ACCEPT_ADD_TO}
    ensures var addrs := LocalRecipients(w.env, h, w.env.domain);
      Answered(w, h, initial, Some(answer)) == Send(DUPLICATE, Some(answer)) <==>
        initial != ACCEPT_ADD_TO && addrs != [] &&
        forall a :: a in addrs ==> w.received(if h.flags.hasAddTo then h.pid else answer, a) == Some(true)
  {
    AllReceivedMeans(w, if h.flags.hasAddTo then h.pid else answer, LocalRecipients(w.env, h, w.env.domain));
  }

  // ---- codes of recipients ----

  /** Within every limit with the message's true expanded size. */
  ghost predicate WithinLimits(d: Detail, h: Header) {
    (d.limitCount <= -1 || d.count < d.limitCount) &&
    (d.limitSizePerDay <= -1 || d.sizePerDay + SizeLimits.TrueExpanded(h) <= d.limitSizePerDay) &&
    (d.limitSizeTotal <= -1 || d.sizeTotal + SizeLimits.TrueExpanded(h) <= d.limitSizeTotal)
  }

  /** The user is known here and does not have the message. */
  ghost predicate CouldReceive(w: World, a: Address, hash: bytes) {
    w.received(hash, a) == Some(false) && w.detail(a).Found?
  }

  /** What each recipient verdict says about the address, exactly. */
  lemma {:induction false} RecipientCodeMeans(w: World, h: Header, a: Address, hash: bytes)
    ensures var v := ValidateRecipient(w, h, a, hash);
      (v == Some(USER_DUPLICATE) <==> w.received(hash, a) == Some(true)) &&
      (v == Some(USER_UNKNOWN) <==> w.received(hash, a) == Some(false) && w.detail(a).Missing?) &&
      (v == Some(USER_NOT_ACCEPTING) <==> CouldReceive(w, a, hash) && !w.detail(a).value.acceptingNew) &&
      (v == Some(USER_FULL) <==>
        CouldReceive(w, a, hash) && w.detail(a).value.acceptingNew && !WithinLimits(w.detail(a).value, h)) &&
      (v == Some(ACCEPT) <==>
        CouldReceive(w, a, hash) && w.detail(a).value.acceptingNew && WithinLimits(w.detail(a).value, h)) &&
      (v == None <==> w.received(hash, a) == None || (w.received(hash, a) == Some(false) && w.detail(a).Failed?))
  {
  }

  const RECIPIENT_CODES: set<byte> :=
    {USER_UNKNOWN, USER_FULL, USER_NOT_ACCEPTING, USER_DUPLICATE, USER_UNDISCLOSED, ACCEPT}

  predicate AllRecipientCodes(codes: bytes) { forall c :: c in codes ==> c in RECIPIENT_CODES }

  /** The entries from lo to hi answered with an acceptance, in order. */
  function Accepted(addrs: seq<Address>, codes: bytes, lo: nat, hi: nat): seq<Address>
    requires hi <= |codes| <= |addrs|
  {
    if hi <= lo then []
    else Accepted(addrs, codes, lo, hi - 1) + (if codes[hi - 1] == ACCEPT then [addrs[hi - 1]] else [])
  }

  lemma {:induction false} AcceptedPrefix(addrs: seq<Address>, codes: bytes, more: bytes, lo: nat, hi: nat)
    requires hi <= |codes| && |codes + more| <= |addrs|
    ensures Accepted(addrs, codes + more, lo, hi) == Accepted(addrs, codes, lo, hi)
    decreases hi
  {
    if hi > lo {
      AcceptedPrefix(addrs, codes, more, lo, hi - 1);
      assert (codes + more)[hi - 1] == codes[hi - 1];
    }
  }

  function Lesser(a: nat, b: nat): nat { if a <= b then a else b }

  /** The lists hold exactly the entries whose code is an acceptance, the _to_
      entries before the others; nothing is accepted until attachments are kept. */
  ghost predicate Consistent(addrs: seq<Address>, numTo: nat, i: nat, p: Progress) {
    i <= |addrs| && |p.codes| == i && AllRecipientCodes(p.codes) &&
    p.to == Accepted(addrs, p.codes, 0, Lesser(i, numTo)) &&
    p.addTo == Accepted(addrs, p.codes, numTo, i) &&
    (!p.primary ==> ACCEPT !in p.codes)
  }

  lemma {:induction false} NoneAccepted(addrs: seq<Address>, codes: bytes, lo: nat, hi: nat)
    requires hi <= |codes| <= |addrs| && ACCEPT !in codes
    ensures Accepted(addrs, codes, lo, hi) == []
    decreases hi
  {
    if hi > lo { NoneAccepted(addrs, codes, lo, hi - 1); }
  }

  /** One code more. */
  lemma {:induction false} ConsistentSnoc(addrs: seq<Address>, numTo: nat, i: nat, p: Progress, code: byte)
    requires i < |addrs| && Consistent(addrs, numTo, i, p)
    ensures var codes := p.codes + [code];
      Accepted(addrs, codes, 0, Lesser(i + 1, numTo)) ==
        (if i < numTo && code == ACCEPT then p.to + [addrs[i]] else p.to) &&
      Accepted(addrs, codes, numTo, i + 1) ==
        (if i >= numTo && code == ACCEPT then p.addTo + [addrs[i]] else p.addTo)
  {
    AcceptedPrefix(addrs, p.codes, [code], 0, Lesser(i, numTo));
    AcceptedPrefix(addrs, p.codes, [code], numTo, i);
    assert (p.codes + [code])[i] == code;
    assert p.to + [] == p.to && p.addTo + [] == p.addTo;
  }

  /** What one recipient adds: its code, and on acceptance its entry. A failure to
      keep the attachments clears lists that were still empty. */
  lemma {:induction false} DeliverAdds(w: World, h: Header, hash: bytes, a: Address, i: nat, isTo: bool, p: Progress)
    ensures var q := Deliver(w, h, hash, a, i, isTo, p);
      q.Some? ==>
        |q.value.codes| == |p.codes| + 1 &&
        var code := q.value.codes[|p.codes|];
        q.value.codes == p.codes + [code] && code in RECIPIENT_CODES &&
        (p.primary ==> q.value.primary) && (code == ACCEPT ==> q.value.primary) &&
        (q.value.primary ==> q.value.to == (if isTo && code == ACCEPT then p.to + [a] else p.to)) &&
        (q.value.primary ==> q.value.addTo == (if !isTo && code == ACCEPT then p.addTo + [a] else p.addTo)) &&
        (!q.value.primary ==>
          (q.value.to == [] || q.value.to == p.to) && (q.value.addTo == [] || q.value.addTo == p.addTo))
  {
  }

  lemma {:induction false} DeliverKeeps(w: World, h: Header, hash: bytes, addrs: seq<Address>, numTo: nat, i: nat,
                                        p: Progress)
    requires i < |addrs| && Consistent(addrs, numTo, i, p)
    ensures var q := Deliver(w, h, hash, addrs[i], i, i < numTo, p);
      q.Some? ==> Consistent(addrs, numTo, i + 1, q.value)
  {
    var r := Deliver(w, h, hash, addrs[i], i, i < numTo, p);
    DeliverAdds(w, h, hash, addrs[i], i, i < numTo, p);
    if r.Some? {
      var q := r.value;
      ConsistentSnoc(addrs, numTo, i, p, q.codes[i]);
      if !p.primary {
        NoneAccepted(addrs, p.codes, 0, Lesser(i, numTo));
        NoneAccepted(addrs, p.codes, numTo, i);
      }
      assert ACCEPT in q.codes ==> ACCEPT in p.codes || q.codes[i] == ACCEPT;
    }
  }

  lemma {:induction false} DeliverFromKeeps(w: World, h: Header, hash: bytes, addrs: seq<Address>, numTo: nat, i: nat,
                                            p: Progress)
    requires i <= |addrs| && Consistent(addrs, numTo, i, p)
    ensures var q := DeliverFrom(w, h, hash, addrs, numTo, i, p); q.Some? ==> Consistent(addrs, numTo, |addrs|, q.value)
    decreases |addrs| - i
  {
    if i < |addrs| {
      DeliverKeeps(w, h, hash, addrs, numTo, i, p);
      var q := Deliver(w, h, hash, addrs[i], i, i < numTo, p);
      if q.Some? { DeliverFromKeeps(w, h, hash, addrs, numTo, i + 1, q.value); }
    }
  }

  /** After the loop an entry's code is 200 exactly when the entry is in the
      accepted list of its own kind, whatever attachment failures reset. */
  lemma {:induction false} LoopAcceptsExactly(w: World, h: Header, hash: bytes, addrs: seq<Address>, numTo: nat)
    requires numTo <= |addrs|
    ensures var q := DeliverFrom(w, h, hash, addrs, numTo, 0, Progress([], [], [], false, false));
      q.Some? ==>
        |q.value.codes| == |addrs| && AllRecipientCodes(q.value.codes) &&
        q.value.to == Accepted(addrs, q.value.codes, 0, numTo) &&
        q.value.addTo == Accepted(addrs, q.value.codes, numTo, |addrs|)
  {
    DeliverFromKeeps(w, h, hash, addrs, numTo, 0, Progress([], [], [], false, false));
  }

  /** The code an entry ends with: the verdict on its address, except that an
      accepted entry needs its copy, and the attachments kept for it or for an
      earlier accepted entry. */
  function FinalCode(w: World, h: Header, hash: bytes, a: Address, i: nat, earlier: bytes): byte {
    match ValidateRecipient(w, h, a, hash)
    case None => USER_UNDISCLOSED
    case Some(v) =>
      if v != ACCEPT then v
      else if w.copyOk(i) && (w.persistOk(i) || ACCEPT in earlier) then ACCEPT
      else USER_UNDISCLOSED
  }

  ghost predicate CodesFinal(w: World, h: Header, hash: bytes, addrs: seq<Address>, p: Progress) {
    |p.codes| <= |addrs| && (p.primary <==> ACCEPT in p.codes) &&
    forall j :: 0 <= j < |p.codes| ==> p.codes[j] == FinalCode(w, h, hash, addrs[j], j, p.codes[..j])
  }

  lemma {:induction false} DeliverFinal(w: World, h: Header, hash: bytes, addrs: seq<Address>, numTo: nat, i: nat,
                                        p: Progress)
    requires i < |addrs| && |p.codes| == i && CodesFinal(w, h, hash, addrs, p)
    ensures var q := Deliver(w, h, hash, addrs[i], i, i < numTo, p);
      q.Some? ==> |q.value.codes| == i + 1 && CodesFinal(w, h, hash, addrs, q.value)
  {
    var r := Deliver(w, h, hash, addrs[i], i, i < numTo, p);
    if r.Some? {
      var code := FinalCode(w, h, hash, addrs[i], i, p.codes);
      assert r.value.codes == p.codes + [code];
      assert (p.codes + [code])[..i] == p.codes;
      forall j | 0 <= j < i ensures (p.codes + [code])[..j] == p.codes[..j] {
      }
    }
  }

  /** The loop answers every entry with its final code. */
  lemma {:induction false} LoopCodes(w: World, h: Header, hash: bytes, addrs: seq<Address>, numTo: nat, i: nat,
                                     p: Progress)
    requires i <= |addrs| && |p.codes| == i && CodesFinal(w, h, hash, addrs, p)
    ensures var q := DeliverFrom(w, h, hash, addrs, numTo, i, p);
      q.Some? ==> |q.value.codes| == |addrs| && CodesFinal(w, h, hash, addrs, q.value)
    decreases |addrs| - i
  {
    if i < |addrs| {
      DeliverFinal(w, h, hash, addrs, numTo, i, p);
      var q := Deliver(w, h, hash, addrs[i], i, i < numTo, p);
      if q.Some? { LoopCodes(w, h, hash, addrs, numTo, i + 1, q.value); }
    }
  }

  /** The codes a finished download sends: each entry's final code, with every
      acceptance withdrawn if the store failed. A download that finishes was
      checked against the challenge answer. */
  lemma {:induction false} DownloadCodes(w: World, h: Header, skip: bool, answer: Option<bytes>, s: bytes)
    ensures var r := Download(w, h, skip, answer, s);
      r.Some? ==>
        var wire := Payload(w, h, skip, s);
        wire.Some? && MessageHash(w.cr, wire.value.0).Some? &&
        var hash := MessageHash(w.cr, wire.value.0).value;
        var addrs := LocalRecipients(w.env, h, w.env.domain);
        (answer.Some? ==> answer.value == hash) &&
        exists codes: bytes :: |codes| == |addrs| &&
          (forall j :: 0 <= j < |codes| ==> codes[j] == FinalCode(w, h, Canonical(h, hash), addrs[j], j, codes[..j])) &&
          r.value.0.codes == if ACCEPT in codes && !w.stored then Downgraded(codes) else codes
  {
    var r := Download(w, h, skip, answer, s);
    if r.Some? {
      var addrs := LocalRecipients(w.env, h, w.env.domain);
      var numTo := |OnDomainOf(w.env, h.to, w.env.domain)|;
      var hash := Canonical(h, MessageHash(w.cr, Payload(w, h, skip, s).value.0).value);
      LoopAcceptsExactly(w, h, hash, addrs, numTo);
      LoopCodes(w, h, hash, addrs, numTo, 0, Progress([], [], [], false, false));
      var p := DeliverFrom(w, h, hash, addrs, numTo, 0, Progress([], [], [], false, false)).value;
      AcceptedSplit(addrs, p.codes, numTo, |addrs|);
      if p.to == [] && p.addTo == [] { EmptyMeansNone(addrs, p.codes, |addrs|); }
      if ACCEPT !in p.codes { NoneAccepted(addrs, p.codes, 0, |addrs|); }
      assert r.value.0.codes == if ACCEPT in p.codes && !w.stored then Downgraded(p.codes) else p.codes;
    }
  }

  lemma {:induction false} AcceptedSplit(addrs: seq<Address>, codes: bytes, mid: nat, hi: nat)
    requires mid <= hi <= |codes| <= |addrs|
    ensures Accepted(addrs, codes, 0, mid) + Accepted(addrs, codes, mid, hi) == Accepted(addrs, codes, 0, hi)
    decreases hi
  {
    if hi > mid { AcceptedSplit(addrs, codes, mid, hi - 1); }
  }

  /** A finished download sends one code per local recipient, and any 200 among
      them means the message was committed and exactly the accepted entries
      charged. */
  lemma {:induction false} DownloadSettles(w: World, h: Header, skip: bool, answer: Option<bytes>, s: bytes)
    ensures var r := Download(w, h, skip, answer, s);
      r.Some? ==>
        var addrs := LocalRecipients(w.env, h, w.env.domain);
        var finish := r.value.0;
        |finish.codes| == |addrs| && AllRecipientCodes(finish.codes) &&
        (ACCEPT in finish.codes <==> finish.committed) &&
        finish.charged == Accepted(addrs, finish.codes, 0, |addrs|)
  {
    var r := Download(w, h, skip, answer, s);
    if r.Some? {
      var addrs := LocalRecipients(w.env, h, w.env.domain);
      var numTo := |OnDomainOf(w.env, h.to, w.env.domain)|;
      var wire := Payload(w, h, skip, s).value.0;
      var hash := Canonical(h, MessageHash(w.cr, wire).value);
      LoopAcceptsExactly(w, h, hash, addrs, numTo);
      var p := DeliverFrom(w, h, hash, addrs, numTo, 0, Progress([], [], [], false, false)).value;
      AcceptedSplit(addrs, p.codes, numTo, |addrs|);
      SettleSettles(w, addrs, p);
    }
  }

  lemma {:induction false} SettleSettles(w: World, addrs: seq<Address>, p: Progress)
    requires |p.codes| == |addrs| && AllRecipientCodes(p.codes)
    requires p.to + p.addTo == Accepted(addrs, p.codes, 0, |addrs|)
    ensures var f := Settle(w, p);
      |f.codes| == |addrs| && AllRecipientCodes(f.codes) && (ACCEPT in f.codes <==> f.committed) &&
      f.charged == Accepted(addrs, f.codes, 0, |addrs|)
  {
    if p.to == [] && p.addTo == [] {
      EmptyMeansNone(addrs, p.codes, |addrs|);
    } else if !w.stored {
      NoneAccepted(addrs, Downgraded(p.codes), 0, |addrs|);
    } else if ACCEPT !in p.codes {
      NoneAccepted(addrs, p.codes, 0, |addrs|);
    }
  }

  lemma {:induction false} EmptyMeansNone(addrs: seq<Address>, codes: bytes, hi: nat)
    requires hi <= |codes| <= |addrs| && Accepted(addrs, codes, 0, hi) == []
    ensures forall i :: 0 <= i < hi ==> codes[i] != ACCEPT
    decreases hi
  {
    if hi > 0 { EmptyMeansNone(addrs, codes, hi - 1); }
  }

  // ---- every run ----

  const HEADER_CODES: set<byte> := {1, 3, 4, 6, 7, 8, 9, 10, 11}

  /** What a message connection may write: nothing; one header code; or 64 or 65,
      alone or followed by one recipient code per local recipient. */
  ghost predicate LegalResponse(written: bytes, addTo: bool, locals: nat) {
    || written == []
    || (|written| == 1 && written[0] in HEADER_CODES && (written[0] == ACCEPT_ADD_TO ==> addTo))
    || (|written| >= 1 && written[0] in {CONTINUE, SKIP_DATA} && (written[0] == SKIP_DATA ==> addTo) && locals > 0 &&
        (|written| == 1 || (|written| == 1 + locals && AllRecipientCodes(written[1..]))))
  }

  lemma {:induction false} ConverseIsLegal(w: World, h: Header, rest: bytes)
    ensures LegalResponse(Converse(w, h, rest).written, h.addTo != [], |LocalRecipients(w.env, h, w.env.domain)|)
  {
    AdmitCodes(w, h);
    if Admit(w, h).Proceed? {
      OpenCodes(w, h, Admit(w, h).initial);
      var o := Open(w, h, Admit(w, h).initial);
      if o.Send? && (o.code == CONTINUE || o.code == SKIP_DATA) {
        DownloadSettles(w, h, o.code == SKIP_DATA, o.answer, rest);
        var d := Download(w, h, o.code == SKIP_DATA, o.answer, rest);
        if d.Some? {
          assert ([o.code] + d.value.0.codes)[1..] == d.value.0.codes;
        }
      }
    }
  }

  /** Every run on every input writes a legal response for the header it accepted;
      without one it writes at most a single rejection. */
  lemma {:induction false} EveryRunIsLegal(w: World, s: bytes)
    ensures var got := ReadHeader(w.env, s);
      if got.Got? then
        LegalResponse(Serve(w, s).written, got.value.flags.hasAddTo, |LocalRecipients(w.env, got.value, w.env.domain)|)
      else
        Serve(w, s).written == [] ||
        exists c :: c in {INVALID, TOO_BIG, PAST_TIME, FUTURE_TIME} && Serve(w, s).written == [c]
  {
    if ReadHeader(w.env, s).Got? { ReadRunIsLegal(w, s); } else { UnreadRunIsLegal(w, s); }
  }

  lemma {:induction false} UnreadRunIsLegal(w: World, s: bytes)
    requires !ReadHeader(w.env, s).Got?
    ensures Serve(w, s).written == [] ||
            exists c :: c in {INVALID, TOO_BIG, PAST_TIME, FUTURE_TIME} && Serve(w, s).written == [c]
  {
    HeaderRefuses(w.env, s);
  }

  lemma {:induction false} ReadRunIsLegal(w: World, s: bytes)
    requires ReadHeader(w.env, s).Got?
    ensures var h := ReadHeader(w.env, s).value;
      LegalResponse(Serve(w, s).written, h.flags.hasAddTo, |LocalRecipients(w.env, h, w.env.domain)|)
  {
    var got := ReadHeader(w.env, s);
    assert got.value.flags.hasAddTo <==> got.value.addTo != [] by { AddToFlagged(w.env, s, got.value, got.rest); }
    ConverseIsLegal(w, got.value, got.rest);
  }

  lemma {:induction false} AddToFlagged(env: Env, s: bytes, h: Header, rest: bytes)
    requires ReadHeader(env, s) == Got(h, rest)
    ensures h.flags.hasAddTo <==> h.addTo != []
  {
    HeaderCodec(env, s, h, rest);
  }
}
