/** Which answer a header gets: the second half of readHeader and the challenge decision
    of handleConn (cmd/fmsgd/host.go), each verdict with its exact condition on
    what the header says and the host knows. */
module Admission {
  import opened Prelude
  import opened Header
  import opened Parser
  import opened Identity
  import opened Receiver
  import opened ReceiverProofs

  // ---- who is addressed ----

  ghost predicate AnyHere(w: World, addrs: seq<Address>) {
    exists a :: a in addrs && w.env.fold(a.domain) == w.env.fold(w.env.domain)
  }

  /** A recipient is here, or it is an add-to and its from is. */
  ghost predicate Addressed(w: World, h: Header) {
    AnyHere(w, h.to) || AnyHere(w, h.addTo) ||
    (h.addTo != [] && w.env.fold(h.from.domain) == w.env.fold(w.env.domain))
  }

  /** The connection comes from the host of whoever sends this message: the adder of an
      add-to, the from of any other. */
  ghost predicate SenderMay(w: World, h: Header) {
    w.senderOk(if h.addTo != [] && h.addToFrom.Some? then h.addToFrom.value.domain else h.from.domain)
  }

  // ---- add-to ----

  /** The message the add-to names is known not to be stored, or not retrievable. */
  ghost predicate NotHeld(w: World, h: Header) { !w.byHash(h.pid).Failed? && !Stored(w, h.pid) }

  ghost predicate HeldTerminal(w: World, h: Header) {
    Stored(w, h.pid) && w.byHash(h.pid).value.wire.h.flags.terminal
  }

  /** The held message takes batches but the add-to is dated before it. */
  ghost predicate AddedTooEarly(w: World, h: Header) {
    Stored(w, h.pid) && !HeldTerminal(w, h) && w.byHash(h.pid).value.time - w.env.futureDelta > w.env.clock(h.time)
  }

  ghost predicate HeldInTime(w: World, h: Header) {
    Stored(w, h.pid) && !HeldTerminal(w, h) && w.byHash(h.pid).value.time - w.env.futureDelta <= w.env.clock(h.time)
  }

  /** Whether the batch was recorded before; None when that cannot be told. */
  ghost function BatchKnown(w: World, h: Header): Option<bool>
    requires Stored(w, h.pid)
  {
    var hash := Reconstruct(w.cr, h, w.byHash(h.pid).value.wire);
    if hash.None? then None else w.recorded(hash.value)
  }

  ghost predicate BatchIs(w: World, h: Header, known: Option<bool>) {
    HeldInTime(w, h) && AdderMayAdd(w, h) && BatchKnown(w, h) == known
  }

  lemma {:induction false} AdderParticipates(w: World, h: Header)
    requires w.byHash(h.pid).Found? && h.addToFrom.Some?
    ensures var p := w.byHash(h.pid).value.wire.h;
      Participates(w.env, h.addToFrom.value, [p.from] + p.to) <==> AdderMayAdd(w, h)
  {
    var p := w.byHash(h.pid).value.wire.h;
    assert forall a :: a in [p.from] + p.to <==> a == p.from || a in p.to;
  }

  /** Every verdict on an add-to, with its condition. */
  lemma {:induction false} AddToPathIff(w: World, h: Header)
    ensures var v := AddToPath(w, h);
      (v == Proceed(CONTINUE) <==> NotHeld(w, h) && (AnyHere(w, h.to) || AnyHere(w, h.addTo))) &&
      (v == Proceed(SKIP_DATA) <==> BatchIs(w, h, Some(false)) && AnyHere(w, h.addTo)) &&
      (v == Proceed(ACCEPT_ADD_TO) <==> BatchIs(w, h, Some(false)) && !AnyHere(w, h.addTo)) &&
      (v == Reply(INVALID) <==> HeldTerminal(w, h) || (HeldInTime(w, h) && !AdderMayAdd(w, h))) &&
      (v == Reply(PARENT_NOT_FOUND) <==> NotHeld(w, h) && !AnyHere(w, h.to) && !AnyHere(w, h.addTo)) &&
      (v == Reply(TIME_TRAVEL) <==> AddedTooEarly(w, h)) &&
      (v == Reply(DUPLICATE) <==> BatchIs(w, h, Some(true))) &&
      (v == Drop <==> w.byHash(h.pid).Failed? || BatchIs(w, h, None))
  {
    HereAlike(w, h.to);
    HereAlike(w, h.addTo);
    if w.byHash(h.pid).Found? && h.addToFrom.Some? { AdderParticipates(w, h); }
  }

  lemma {:induction false} HereAlike(w: World, addrs: seq<Address>)
    ensures HasDomainRecipient(w.env, addrs, w.env.domain) <==> AnyHere(w, addrs)
  {
    if HasDomainRecipient(w.env, addrs, w.env.domain) {
      var a :| a in addrs && OnDomain(w.env, a, w.env.domain);
    }
    if AnyHere(w, addrs) {
      var a :| a in addrs && w.env.fold(a.domain) == w.env.fold(w.env.domain);
      assert OnDomain(w.env, a, w.env.domain);
    }
  }

  // ---- replies ----

  /** The message a reply names: by its own hash, or else by the hash of a batch. */
  ghost function ReplyParent(w: World, h: Header): Found<Parent> {
    if w.byHash(h.pid).Missing? then w.byBatch(h.pid) else w.byHash(h.pid)
  }

  ghost predicate ParentHeld(w: World, h: Header) { ReplyParent(w, h).Found? && ReplyParent(w, h).value.retrievable }

  ghost predicate ReplyInTime(w: World, h: Header) {
    ParentHeld(w, h) && ReplyParent(w, h).value.time - w.env.futureDelta <= w.env.clock(h.time)
  }

  /** The sender of the reply took part in its parent. */
  ghost predicate TookPart(w: World, h: Header)
    requires ParentHeld(w, h)
  {
    var p := ReplyParent(w, h).value.wire.h;
    Key(w.env, h.from) == Key(w.env, p.from) ||
    (exists a :: a in p.to + p.addTo && Key(w.env, a) == Key(w.env, h.from)) ||
    (p.addToFrom.Some? && Key(w.env, p.addToFrom.value) == Key(w.env, h.from))
  }

  ghost predicate ReplyAllowed(w: World, h: Header) {
    ReplyInTime(w, h) && TookPart(w, h) && !ReplyParent(w, h).value.wire.h.flags.terminal
  }

  lemma {:induction false} TakesPart(w: World, h: Header)
    requires ParentHeld(w, h)
    ensures var p := ReplyParent(w, h).value.wire.h;
      var who := [p.from] + p.to + (if p.addToFrom.Some? then [p.addToFrom.value] else []) + p.addTo;
      Participates(w.env, h.from, who) <==> TookPart(w, h)
  {
    var p := ReplyParent(w, h).value.wire.h;
    var who := [p.from] + p.to + (if p.addToFrom.Some? then [p.addToFrom.value] else []) + p.addTo;
    assert forall a :: a in who <==>
      (a == p.from || a in p.to + p.addTo || (p.addToFrom.Some? && a == p.addToFrom.value));
  }

  /** Every verdict on a reply, with its condition. */
  lemma {:induction false} ReplyPathIff(w: World, h: Header)
    ensures var v := ReplyPath(w, h);
      (v == Proceed(CONTINUE) <==> ReplyAllowed(w, h)) &&
      (v == Reply(PARENT_NOT_FOUND) <==> !ReplyParent(w, h).Failed? && !ParentHeld(w, h)) &&
      (v == Reply(TIME_TRAVEL) <==> ParentHeld(w, h) && !ReplyInTime(w, h)) &&
      (v == Reply(INVALID) <==> ReplyInTime(w, h) && !ReplyAllowed(w, h)) &&
      (v == Drop <==> ReplyParent(w, h).Failed?)
  {
    if ParentHeld(w, h) { TakesPart(w, h); }
  }

  // ---- admission ----

  /** The header is for this host and from a host that may send it. */
  ghost predicate Eligible(w: World, h: Header) { Addressed(w, h) && SenderMay(w, h) }

  ghost predicate IsAddTo(h: Header) { h.addTo != [] }
  ghost predicate IsReply(h: Header) { h.addTo == [] && h.flags.hasPid }

  /** When a header is admitted: with 64 for a full delivery, 65 when the data is held,
      11 when it only informs. */
  lemma {:induction false} AdmittedIff(w: World, h: Header)
    ensures Admit(w, h) == Proceed(CONTINUE) <==>
      Eligible(w, h) && (IsAddTo(h) ==> NotHeld(w, h) && (AnyHere(w, h.to) || AnyHere(w, h.addTo))) &&
      (IsReply(h) ==> ReplyAllowed(w, h))
    ensures Admit(w, h) == Proceed(SKIP_DATA) <==>
      Eligible(w, h) && IsAddTo(h) && BatchIs(w, h, Some(false)) && AnyHere(w, h.addTo)
    ensures Admit(w, h) == Proceed(ACCEPT_ADD_TO) <==>
      Eligible(w, h) && IsAddTo(h) && BatchIs(w, h, Some(false)) && !AnyHere(w, h.addTo)
    ensures Admit(w, h).Proceed? ==> Admit(w, h).initial in {CONTINUE, SKIP_DATA, ACCEPT_ADD_TO}
  {
    HereAlike(w, h.to);
    HereAlike(w, h.addTo);
    AdmitCodes(w, h);
    AddToPathIff(w, h);
    ReplyPathIff(w, h);
  }

  /** When it is refused, and with which code. */
  lemma {:induction false} RefusedIff(w: World, h: Header)
    ensures Admit(w, h) == Reply(INVALID) <==>
      !Addressed(w, h) ||
      (SenderMay(w, h) &&
       ((IsAddTo(h) && (HeldTerminal(w, h) || (HeldInTime(w, h) && !AdderMayAdd(w, h)))) ||
        (IsReply(h) && ReplyInTime(w, h) && !ReplyAllowed(w, h))))
    ensures Admit(w, h) == Reply(PARENT_NOT_FOUND) <==>
      Eligible(w, h) &&
      ((IsAddTo(h) && NotHeld(w, h) && !AnyHere(w, h.to) && !AnyHere(w, h.addTo)) ||
       (IsReply(h) && !ReplyParent(w, h).Failed? && !ParentHeld(w, h)))
    ensures Admit(w, h) == Reply(TIME_TRAVEL) <==>
      Eligible(w, h) &&
      ((IsAddTo(h) && AddedTooEarly(w, h)) || (IsReply(h) && ParentHeld(w, h) && !ReplyInTime(w, h)))
    ensures Admit(w, h) == Reply(DUPLICATE) <==> Eligible(w, h) && IsAddTo(h) && BatchIs(w, h, Some(true))
    ensures Admit(w, h) == Drop <==>
      Addressed(w, h) &&
      (!SenderMay(w, h) || (IsAddTo(h) && (w.byHash(h.pid).Failed? || BatchIs(w, h, None))) ||
       (IsReply(h) && ReplyParent(w, h).Failed?))
  {
    HereAlike(w, h.to);
    HereAlike(w, h.addTo);
    AddToPathIff(w, h);
    ReplyPathIff(w, h);
  }

  // ---- the challenge ----

  /** The host asks for proof: always, or of a thread it took no part in. */
  ghost predicate WantsProof(w: World, h: Header) {
    w.mode == Always ||
    (w.mode == HasNotParticipated && (!h.flags.hasPid || h.pid == [] || w.participated(h.pid) == Some(false)))
  }

  /** It takes the message without: never asking, or of a thread it took part in. */
  ghost predicate TakesOnTrust(w: World, h: Header) {
    w.mode == Never ||
    (w.mode == HasNotParticipated && h.flags.hasPid && h.pid != [] && w.participated(h.pid) == Some(true))
  }

  /** A lookup fails before any local recipient is found not to have the message. */
  ghost predicate LookupFails(w: World, hash: bytes, addrs: seq<Address>) {
    exists i :: 0 <= i < |addrs| && w.received(hash, addrs[i]) == None &&
      forall j :: 0 <= j < i ==> w.received(hash, addrs[j]) == Some(true)
  }

  lemma {:induction false} AllReceivedFails(w: World, hash: bytes, addrs: seq<Address>)
    ensures AllReceived(w, hash, addrs) == None <==> LookupFails(w, hash, addrs)
  {
    if addrs != [] {
      var tail := addrs[1..];
      AllReceivedFails(w, hash, tail);
      if LookupFails(w, hash, tail) && w.received(hash, addrs[0]) == Some(true) {
        var i :| 0 <= i < |tail| && w.received(hash, tail[i]) == None &&
          forall j :: 0 <= j < i ==> w.received(hash, tail[j]) == Some(true);
        assert addrs[i + 1] == tail[i];
        assert forall j :: 1 <= j < i + 1 ==> addrs[j] == tail[j - 1];
      }
      if LookupFails(w, hash, addrs) && w.received(hash, addrs[0]) != None {
        var i :| 0 <= i < |addrs| && w.received(hash, addrs[i]) == None &&
          forall j :: 0 <= j < i ==> w.received(hash, addrs[j]) == Some(true);
        assert tail[i - 1] == addrs[i];
        assert forall j :: 0 <= j < i - 1 ==> tail[j] == addrs[j + 1];
      }
    }
  }

  /** The connection goes on with an answer exactly when proof is wanted and was given,
      without one exactly when the message is taken on trust, and is abandoned
      in every other case. */
  lemma {:induction false} ChallengedIff(w: World, h: Header, initial: byte)
    ensures var o := Open(w, h, initial);
      (o.Send? && o.answer.Some? <==> WantsProof(w, h) && w.challengeAnswer.Some?) &&
      (o.Send? && o.answer.Some? ==> o.answer == w.challengeAnswer) &&
      (o.Send? && o.answer.None? <==> TakesOnTrust(w, h)) &&
      (o.Abort? <==> !TakesOnTrust(w, h) && !(WantsProof(w, h) && w.challengeAnswer.Some?))
  {
  }

  /** The hash local recipients are looked up by: the message's own, which an add-to
      carries as its pid. */
  ghost function LookupHash(h: Header, answer: bytes): bytes { if h.flags.hasAddTo then h.pid else answer }

  /** Every local recipient has the message. */
  ghost predicate AllHave(w: World, hash: bytes, addrs: seq<Address>) {
    addrs != [] && forall a :: a in addrs ==> w.received(hash, a) == Some(true)
  }

  /** The code it goes on with: 10 when the challenge showed that every local recipient
      has the message; 3 when that could not be looked up, or a notification
      could not be recorded; the admitted code otherwise. */
  lemma {:induction false} OpeningCodeIff(w: World, h: Header, initial: byte)
    requires initial in {CONTINUE, SKIP_DATA, ACCEPT_ADD_TO} && Open(w, h, initial).Send?
    ensures var o := Open(w, h, initial);
      var locals := LocalRecipients(w.env, h, w.env.domain);
      (o.code == DUPLICATE <==>
        initial != ACCEPT_ADD_TO && o.answer.Some? && AllHave(w, LookupHash(h, o.answer.value), locals)) &&
      (o.code == UNDISCLOSED <==>
        (initial == ACCEPT_ADD_TO && !w.headerStored) ||
        (initial != ACCEPT_ADD_TO && o.answer.Some? && LookupFails(w, LookupHash(h, o.answer.value), locals))) &&
      (o.code != DUPLICATE && o.code != UNDISCLOSED ==> o.code == initial)
  {
    var o := Open(w, h, initial);
    AnsweredCodeIff(w, h, initial, o.answer);
  }

  lemma {:induction false} AnsweredCodeIff(w: World, h: Header, initial: byte, answer: Option<bytes>)
    requires initial in {CONTINUE, SKIP_DATA, ACCEPT_ADD_TO}
    ensures var o := Answered(w, h, initial, answer);
      var locals := LocalRecipients(w.env, h, w.env.domain);
      o.Send? && o.answer == answer &&
      (o.code == DUPLICATE <==>
        initial != ACCEPT_ADD_TO && answer.Some? && AllHave(w, LookupHash(h, answer.value), locals)) &&
      (o.code == UNDISCLOSED <==>
        (initial == ACCEPT_ADD_TO && !w.headerStored) ||
        (initial != ACCEPT_ADD_TO && answer.Some? && LookupFails(w, LookupHash(h, answer.value), locals))) &&
      (o.code != DUPLICATE && o.code != UNDISCLOSED ==> o.code == initial)
  {
    var locals := LocalRecipients(w.env, h, w.env.domain);
    if answer.Some? {
      AllReceivedMeans(w, LookupHash(h, answer.value), locals);
      AllReceivedFails(w, LookupHash(h, answer.value), locals);
    }
  }
}
