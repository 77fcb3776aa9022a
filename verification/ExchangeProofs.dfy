/** What every run of the two-host exchange keeps. */
module ExchangeProofs {
  import opened Prelude
  import opened Many
  import opened Header
  import opened Parser
  import opened Codec
  import opened Identity
  import opened Receiver
  import opened ReceiverProofs
  import opened Outgoing
  import opened Exchange

  // ---- the data on the wire ----

  function Sum(sizes: seq<nat>): nat { if sizes == [] then 0 else sizes[0] + Sum(sizes[1..]) }

  lemma {:induction false} TakePartsConsumes(sizes: seq<nat>, s: bytes)
    ensures var r := TakeParts(sizes, s); r.Some? ==> Sum(sizes) + |r.value.1| == |s|
    decreases |sizes|
  {
    if sizes != [] && |s| >= sizes[0] { TakePartsConsumes(sizes[1..], s[sizes[0]..]); }
  }

  ghost predicate SizesMatch(sizes: seq<nat>, parts: seq<bytes>) {
    |sizes| == |parts| && forall i :: 0 <= i < |parts| ==> |parts[i]| == sizes[i]
  }

  /** Reading the declared sizes takes concatenated parts apart, and no more. */
  lemma {:induction false} TakePartsSplits(sizes: seq<nat>, parts: seq<bytes>)
    requires SizesMatch(sizes, parts)
    ensures TakeParts(sizes, Concat(parts)) == Some((parts, []))
    decreases |sizes|
  {
    if sizes != [] {
      TakePartsSplits(sizes[1..], parts[1..]);
      Front(parts[0], Concat(parts[1..]));
      assert parts == [parts[0]] + parts[1..];
    }
  }

  /** The parts read are those of the declared sizes at the front of the stream, and what
      is left is what follows them. */
  lemma {:induction false} TakePartsIff(sizes: seq<nat>, s: bytes, parts: seq<bytes>, rest: bytes)
    ensures TakeParts(sizes, s) == Some((parts, rest)) <==> SizesMatch(sizes, parts) && s == Concat(parts) + rest
    decreases |sizes|
  {
    if sizes == [] {
      if SizesMatch(sizes, parts) { assert parts == [] && Concat(parts) + rest == rest; }
    } else {
      if TakeParts(sizes, s) == Some((parts, rest)) {
        TakePartsIff(sizes[1..], s[sizes[0]..], parts[1..], rest);
        assert parts == [parts[0]] + parts[1..] && s == s[..sizes[0]] + s[sizes[0]..];
        Assoc(parts[0], Concat(parts[1..]), rest);
      }
      if SizesMatch(sizes, parts) && s == Concat(parts) + rest {
        Assoc(parts[0], Concat(parts[1..]), rest);
        Front(parts[0], Concat(parts[1..]) + rest);
        TakePartsIff(sizes[1..], s[sizes[0]..], parts[1..], rest);
        assert parts == [parts[0]] + parts[1..];
      }
    }
  }

  /** What a download takes for the message, exactly: the header with its body and
      attachments of the declared sizes, in order. */
  lemma {:induction false} PayloadIff(w: World, h: Header, s: bytes, m: Wire, rest: bytes)
    ensures Payload(w, h, false, s) == Some((m, rest)) <==> m.h == h && Sized(m) && s == SentData(m) + rest
  {
    var parts := [m.body] + m.atts;
    assert parts[1..] == m.atts;
    TakePartsIff(PartSizes(h), s, parts, rest);
    if Payload(w, h, false, s) == Some((m, rest)) {
      var got := TakeParts(PartSizes(h), s).value.0;
      assert got == [got[0]] + got[1..];
      SizedParts(m);
    }
    if m.h == h && Sized(m) { PartsMatch(m); }
  }

  lemma {:induction false} SizedParts(m: Wire)
    requires SizesMatch(PartSizes(m.h), [m.body] + m.atts)
    ensures Sized(m)
  {
    var parts, sizes := [m.body] + m.atts, PartSizes(m.h);
    assert |parts| == |m.atts| + 1 && |sizes| == |m.h.attachments| + 1 && parts[0] == m.body && sizes[0] == m.h.size;
    forall i | 0 <= i < |m.atts| ensures |m.atts[i]| == m.h.attachments[i].size {
      assert parts[i + 1] == m.atts[i] && sizes[i + 1] == m.h.attachments[i].size;
    }
  }

  lemma {:induction false} PartsMatch(m: Wire)
    requires Sized(m)
    ensures SizesMatch(PartSizes(m.h), [m.body] + m.atts) && SentData(m) == Concat([m.body] + m.atts)
  {
    assert ([m.body] + m.atts)[1..] == m.atts;
  }

  /** The receiver takes from the sent data exactly the sender's payloads. */
  lemma {:induction false} DataArrivesWhole(w: World, m: Wire)
    requires Sized(m)
    ensures TakeParts(PartSizes(m.h), SentData(m)) == Some(([m.body] + m.atts, []))
    ensures Payload(w, m.h, false, SentData(m)) == Some((m, []))
  {
    PartsMatch(m);
    TakePartsSplits(PartSizes(m.h), [m.body] + m.atts);
    assert ([m.body] + m.atts)[1..] == m.atts;
  }

  /** A payload complete before anything was sent is empty. */
  lemma {:induction false} NothingToSend(m: Wire)
    requires Sized(m) && TakeParts(PartSizes(m.h), []).Some?
    ensures SentData(m) == []
  {
    TakePartsConsumes(PartSizes(m.h), []);
    PartsMatch(m);
    TakePartsSplits(PartSizes(m.h), [m.body] + m.atts);
    TakePartsConsumes(PartSizes(m.h), SentData(m));
  }

  /** What the proofs use of a setup. */
  ghost predicate Ready(c: Setup) {
    c.w.env.fold(c.target) == c.w.env.fold(c.w.env.domain) && Sized(c.m) && MessageHash(c.w.cr, c.m).Some? &&
    c.hash == HeaderHash(c.w.cr, c.m.h) &&
    (c.m.h.flags.hasAddTo <==> c.m.h.addTo != []) &&
    (c.m.h.flags.hasAddTo && c.w.byHash(c.m.h.pid).Found? ==>
       Reconstruct(c.w.cr, c.m.h, c.w.byHash(c.m.h.pid).value.wire) == MessageHash(c.w.cr, c.m))
  }

  lemma {:induction false} SetupIsReady(c: Setup)
    requires SetupOk(c)
    ensures Ready(c)
  {
  }

  lemma {:induction false} SameDomain(env: Env, addrs: seq<Address>, d: bytes, e: bytes)
    requires env.fold(d) == env.fold(e)
    ensures OnDomainOf(env, addrs, d) == OnDomainOf(env, addrs, e)
  {
    if addrs != [] { SameDomain(env, addrs[..|addrs| - 1], d, e); }
  }

  /** Sender and receiver list the same entries in the same order. */
  lemma {:induction false} SameRecipients(c: Setup)
    requires Ready(c)
    ensures Expected(c) == LocalRecipients(c.w.env, c.m.h, c.w.env.domain)
  {
    SameDomain(c.w.env, c.m.h.to, c.target, c.w.env.domain);
    SameDomain(c.w.env, c.m.h.addTo, c.target, c.w.env.domain);
  }

  // ---- the invariant ----

  predicate ContinueCode(c: Setup, code: byte) {
    code == CONTINUE || (code == SKIP_DATA && c.m.h.flags.hasAddTo)
  }

  /** 11 is for an add-to that adds nobody at the receiver. */
  predicate AddsNobodyHere(c: Setup) {
    c.m.h.flags.hasAddTo && OnDomainOf(c.w.env, c.m.h.addTo, c.w.env.domain) == []
  }

  predicate EndingCode(c: Setup, code: byte) {
    code in HEADER_CODES && (code == ACCEPT_ADD_TO ==> AddsNobodyHere(c))
  }

  ghost predicate FinishOk(c: Setup, f: Finish) {
    |f.codes| == |Expected(c)| && AllRecipientCodes(f.codes) && (ACCEPT in f.codes <==> f.committed) &&
    f.charged == Accepted(Expected(c), f.codes, 0, |Expected(c)|)
  }

  /** Before the receiver has answered. */
  ghost predicate WaitingOk(a: Sender, ba: bytes) { ba == [] && (a.AwaitCode? || a.NoResponse?) }

  /** The header is on its way, or as much of it as a failed sender wrote. */
  ghost predicate ListeningOk(c: Setup, a: Sender, ab: bytes, ba: bytes) {
    (a.Idle? && ab == [] && ba == []) ||
    (WaitingOk(a, ba) && ab <= c.request && (a.AwaitCode? ==> ab == c.request))
  }

  function DataFor(c: Setup, code: byte): bytes { if code == CONTINUE then SentData(c.m) else [] }

  /** While the receiver waits for data: its code is on its way, or read and answered
      with the payload. */
  ghost predicate DownloadingOk(c: Setup, a: Sender, code: byte, ab: bytes, ba: bytes) {
    ContinueCode(c, code) && |Expected(c)| > 0 &&
    (|| a.NoResponse?
     || (a.AwaitCode? && ba == [code] && ab == [])
     || (a == AwaitCodes(code) && ba == [] && ab == DataFor(c, code)))
  }

  ghost predicate DoneOk(c: Setup, a: Sender, f: Finish, ab: bytes, ba: bytes) {
    FinishOk(c, f) &&
    (|| a.NoResponse?
     || (a.AwaitCode? && ab == [] && |ba| > 0 && ba == [ba[0]] + f.codes &&
         ContinueCode(c, ba[0]) && (ba[0] == CONTINUE ==> SentData(c.m) == []))
     || (a.AwaitCodes? && ContinueCode(c, a.first) && ba == f.codes && ab == [])
     || (a.Finished? && ContinueCode(c, a.first) && a.codes == f.codes && ba == [] && ab == []))
  }

  ghost predicate ClosedOk(c: Setup, a: Sender, ba: bytes) {
    match a
    case Idle => ba == []
    case AwaitCode =>
      ba == [] || (|ba| == 1 && (EndingCode(c, ba[0]) || (ContinueCode(c, ba[0]) && |Expected(c)| > 0)))
    case AwaitCodes(_) => ba == [] && |Expected(c)| > 0
    case Refused(code) => ba == [] && 1 <= code <= 10 && EndingCode(c, code)
    case Notified => ba == [] && AddsNobodyHere(c)
    case NoResponse => true
    case Finished(_, _) => false
    case Violation(_) => false
  }

  ghost predicate PhaseOk(c: Setup, s: State) {
    match s.b
    case Listening => ListeningOk(c, s.a, s.ab, s.ba)
    case Parsed(h) => h == c.m.h && s.ab == [] && WaitingOk(s.a, s.ba)
    case Downloading(h, code, _) => h == c.m.h && DownloadingOk(c, s.a, code, s.ab, s.ba)
    case Done(h, f) => h == c.m.h && DoneOk(c, s.a, f, s.ab, s.ba)
    case Closed => ClosedOk(c, s.a, s.ba)
  }

  // ---- every step keeps it ----

  lemma {:induction false} StartKeeps(c: Setup, s: State)
    requires PhaseOk(c, s) && s.a.Idle?
    ensures PhaseOk(c, DoStart(c, s))
  {
    assert [] + c.request == c.request;
  }

  /** From any part of the request, the receiver reads its header or none. */
  lemma {:induction false} OnlyOneHeader(env: Env, h: Header, s: bytes, ab: bytes)
    requires WellFormed(Library(env), h) && s == Encode(h) && ab <= s
    ensures var got := ReadHeader(env, ab); got.Got? ==> got == Got(h, [])
  {
    var got := ReadHeader(env, ab);
    assert ab == s[..|ab|];
    if got.Got? { SameAsSent(env, h, s, |ab|, got.value, got.rest); }
  }

  /** What is read from a prefix of an encoding is the encoded header, from all of it. */
  lemma {:induction false} SameAsSent(env: Env, h: Header, s: bytes, n: nat, got: Header, rest: bytes)
    requires WellFormed(Library(env), h) && s == Encode(h) && n <= |s| && ReadHeader(env, s[..n]) == Got(got, rest)
    ensures got == h && rest == [] && n == |s|
  {
    ReadIsSound(env, s[..n], got, rest);
    var tail := rest + s[n..];
    assert s + [] == Encode(got) + tail by { Completed(s, n, Encode(got), rest); }
    assert got == h && tail == [] by { EncodePrefixFree(Library(env), h, [], got, tail); }
  }

  lemma {:induction false} Completed(s: bytes, n: nat, e: bytes, rest: bytes)
    requires n <= |s| && s[..n] == e + rest
    ensures s + [] == e + (rest + s[n..])
  {
    assert s == s[..n] + s[n..];
    Assoc(e, rest, s[n..]);
  }

  /** A header written only in part is never accepted, lenient as the short reads are. */
  lemma {:induction false} TruncatedNotRead(env: Env, h: Header, n: nat)
    requires WellFormed(Library(env), h) && n < |Encode(h)|
    ensures !ReadHeader(env, Encode(h)[..n]).Got?
  {
    var s := Encode(h);
    var got := ReadHeader(env, s[..n]);
    if got.Got? { SameAsSent(env, h, s, n, got.value, got.rest); }
  }

  lemma {:induction false} ReadIsSound(env: Env, s: bytes, got: Header, rest: bytes)
    requires ReadHeader(env, s) == Got(got, rest)
    ensures WellFormed(Library(env), got) && s == Encode(got) + rest
  {
    HeaderCodec(env, s, got, rest);
    WellFormedInLibrary(env, got);
  }

  lemma {:induction false} ReadRequestKeeps(c: Setup, s: State)
    requires PhaseOk(c, s) && s.b.Listening? && s.ab != []
    requires var got := ReadHeader(c.w.env, s.ab); got.Got? ==> got == Got(c.m.h, [])
    ensures PhaseOk(c, DoReadRequest(c, s))
  {
    HeaderRefuses(c.w.env, s.ab);
    var got := ReadHeader(c.w.env, s.ab);
    if got.Refuse? { EndingSent(c, s, got.code); }
  }

  /** The receiver sends a last code and closes. */
  lemma {:induction false} EndingSent(c: Setup, s: State, code: byte)
    requires WaitingOk(s.a, s.ba) && EndingCode(c, code)
    ensures PhaseOk(c, Say(s, [code]).(b := Closed))
  {
    assert s.ba + [code] == [code];
  }

  /** The receiver sends 64 or 65 and goes on. */
  lemma {:induction false} ContinueSent(c: Setup, s: State, code: byte, answer: Option<bytes>)
    requires WaitingOk(s.a, s.ba) && s.ab == [] && ContinueCode(c, code) && |Expected(c)| > 0
    ensures PhaseOk(c, Say(s, [code]).(b := Downloading(c.m.h, code, answer)))
  {
    assert s.ba + [code] == [code];
  }

  /** Both replies of the receiver are codes the sender can go on from. */
  lemma {:induction false} ReplyCodes(c: Setup, w: World)
    requires Ready(c) && w == c.w.(challengeAnswer := w.challengeAnswer)
    ensures var v := Admit(w, c.m.h);
      (v.Reply? ==> EndingCode(c, v.code)) &&
      (v.Proceed? ==>
         var o := Open(w, c.m.h, v.initial);
         o.Send? ==>
           (if ContinueCode(c, o.code) then |Expected(c)| > 0 else EndingCode(c, o.code)) &&
           (o.code == CONTINUE || o.code == SKIP_DATA ==> ContinueCode(c, o.code)) &&
           (o.answer.Some? ==> o.answer == w.challengeAnswer))
  {
    SameRecipients(c);
    AdmitCodes(w, c.m.h);
    var v := Admit(w, c.m.h);
    if v.Proceed? {
      OpenCodes(w, c.m.h, v.initial);
      assert LocalRecipients(w.env, c.m.h, w.env.domain) == Expected(c);
    }
  }

  lemma {:induction false} ReplyKeeps(c: Setup, s: State)
    requires Ready(c) && PhaseOk(c, s) && s.b.Parsed?
    ensures PhaseOk(c, DoReply(c, s, s.b.h))
  {
    var w := c.w.(challengeAnswer := ChallengeAnswer(c, s.registry, c.m.h));
    ReplyCodes(c, w);
    var v := Admit(w, c.m.h);
    if v.Reply? { EndingSent(c, s, v.code); }
    if v.Proceed? {
      var o := Open(w, c.m.h, v.initial);
      if o.Send? {
        if ContinueCode(c, o.code) { ContinueSent(c, s, o.code, o.answer); } else { EndingSent(c, s, o.code); }
      }
    }
  }

  /** What the sender makes of a code it may go on from, or one that ends it. */
  lemma {:induction false} ReadReplyContinues(c: Setup, s: State)
    requires s.a.AwaitCode? && s.ba != [] && ContinueCode(c, s.ba[0])
    ensures var t := DoReadReply(c, s);
      t.a == AwaitCodes(s.ba[0]) && t.b == s.b && t.ba == s.ba[1..] && t.ab == s.ab + DataFor(c, s.ba[0])
  {
    assert s.ab + [] == s.ab;
  }

  lemma {:induction false} ReadReplyKeeps(c: Setup, s: State)
    requires PhaseOk(c, s) && s.a.AwaitCode? && s.ba != []
    ensures PhaseOk(c, DoReadReply(c, s))
  {
    if ContinueCode(c, s.ba[0]) { ReadReplyContinues(c, s); }
    if s.b.Done? {
      assert s.ba[1..] == s.b.finish.codes;
      assert [] + DataFor(c, s.ba[0]) == [];
    } else {
      assert s.ba == [s.ba[0]] && s.ba[1..] == [];
      assert [] + DataFor(c, s.ba[0]) == DataFor(c, s.ba[0]);
    }
  }

  /** What is left to read after the download, and how it ended. */
  lemma {:induction false} DownloadEnds(c: Setup, code: byte, answer: Option<bytes>, ab: bytes)
    requires Ready(c)
    ensures var d := Download(c.w, c.m.h, code == SKIP_DATA, answer, ab);
      d.Some? ==>
        FinishOk(c, d.value.0) && (ab == DataFor(c, code) && ContinueCode(c, code) ==> d.value.1 == [])
  {
    SameRecipients(c);
    DownloadSettles(c.w, c.m.h, code == SKIP_DATA, answer, ab);
    DataArrivesWhole(c.w, c.m);
  }

  lemma {:induction false} ReceiveKeeps(c: Setup, s: State)
    requires Ready(c) && PhaseOk(c, s) && s.b.Downloading? && Arrived(s.b.h, s.b.code, s.ab)
    ensures PhaseOk(c, DoReceive(c, s, s.b.h, s.b.code, s.b.answer))
  {
    var code := s.b.code;
    DownloadEnds(c, code, s.b.answer, s.ab);
    if s.a.AwaitCode? && code == CONTINUE { NothingToSend(c.m); }
    var d := Download(c.w, s.b.h, code == SKIP_DATA, s.b.answer, s.ab);
    if d.Some? { CodesSent(c, s, d.value.0, d.value.1); }
  }

  lemma {:induction false} CodesSent(c: Setup, s: State, f: Finish, rest: bytes)
    requires s.b.Downloading? && s.b.h == c.m.h && DownloadingOk(c, s.a, s.b.code, s.ab, s.ba) && FinishOk(c, f)
    requires s.a.NoResponse? || rest == []
    requires s.a.AwaitCode? && s.b.code == CONTINUE ==> SentData(c.m) == []
    ensures PhaseOk(c, Say(s, f.codes).(b := Done(s.b.h, f), ab := rest))
  {
    assert s.ba == [] ==> s.ba + f.codes == f.codes;
  }

  lemma {:induction false} ReadCodesKeeps(c: Setup, s: State)
    requires PhaseOk(c, s) && s.a.AwaitCodes? && (|s.ba| >= |Expected(c)| || s.b.Closed? || s.b.Done?)
    ensures PhaseOk(c, DoReadCodes(c, s, s.a.first))
  {
    if s.b.Done? {
      var n := |Expected(c)|;
      assert s.ba[..n] == s.b.finish.codes && s.ba[n..] == [];
    }
  }

  lemma {:induction false} SenderFailsKeeps(c: Setup, s: State, n: nat)
    requires PhaseOk(c, s) && (s.a.AwaitCode? || s.a.AwaitCodes?)
    ensures PhaseOk(c, DoSenderFails(c, s, n))
  {
  }

  lemma {:induction false} PeerFailsKeeps(c: Setup, s: State)
    requires PhaseOk(c, s) && !s.b.Done?
    ensures PhaseOk(c, s.(b := Closed))
  {
  }

  lemma {:induction false} OtherKeeps(c: Setup, s: State, r: Registry<Wire>)
    requires PhaseOk(c, s)
    ensures PhaseOk(c, s.(registry := r))
  {
  }

  lemma {:induction false} ReadRequestStep(c: Setup, s: State)
    requires SetupOk(c) && PhaseOk(c, s) && s.b.Listening? && s.ab != []
    ensures PhaseOk(c, DoReadRequest(c, s))
  {
    OnlyOneHeader(c.w.env, c.m.h, c.request, s.ab);
    ReadRequestKeeps(c, s);
  }

  lemma {:induction false} StepKeeps(c: Setup, s: State, step: Step)
    requires SetupOk(c) && PhaseOk(c, s)
    ensures PhaseOk(c, Do(c, s, step))
  {
    assert Ready(c) by { SetupIsReady(c); }
    match step
    case Start => if s.a.Idle? { StartKeeps(c, s); }
    case ReadRequest => if s.b.Listening? && s.ab != [] { ReadRequestStep(c, s); }
    case Reply => if s.b.Parsed? { ReplyKeeps(c, s); }
    case ReadReply => if s.a.AwaitCode? && s.ba != [] { ReadReplyKeeps(c, s); }
    case Receive => if s.b.Downloading? && Arrived(s.b.h, s.b.code, s.ab) { ReceiveKeeps(c, s); }
    case ReadCodes =>
      if s.a.AwaitCodes? && (|s.ba| >= |Expected(c)| || s.b.Closed? || s.b.Done?) { ReadCodesKeeps(c, s); }
    case SenderFails(n) => if s.a.AwaitCode? || s.a.AwaitCodes? { SenderFailsKeeps(c, s, n); }
    case PeerFails => if !s.b.Done? { PeerFailsKeeps(c, s); }
    case Other(e) => OtherKeeps(c, s, Apply(s.registry, e));
  }

  lemma {:induction false} RunFromKeeps(c: Setup, s: State, steps: seq<Step>)
    requires SetupOk(c) && PhaseOk(c, s)
    ensures PhaseOk(c, RunFrom(c, s, steps))
    decreases |steps|
  {
    if steps != [] {
      StepKeeps(c, s, steps[0]);
      RunFromKeeps(c, Do(c, s, steps[0]), steps[1..]);
    }
  }

  lemma {:induction false} RunKeeps(c: Setup, steps: seq<Step>)
    requires SetupOk(c)
    ensures PhaseOk(c, Execution(c, steps))
  {
    RunFromKeeps(c, INITIAL, steps);
  }

  // ---- what follows for every run ----

  /** How the exchange stands for the sender, and what that says of the receiver. */
  ghost predicate EndOk(c: Setup, s: State) {
    match s.a
    case Finished(first, codes) =>
      ContinueCode(c, first) && s.b.Done? && s.b.h == c.m.h && codes == s.b.finish.codes && FinishOk(c, s.b.finish) &&
      s.ab == [] && s.ba == []
    case Notified => AddsNobodyHere(c) && s.ba == []
    case Refused(code) => 1 <= code <= 10 && s.ba == []
    case Violation(_) => false
    case _ => true
  }

  lemma {:induction false} PhaseEnds(c: Setup, s: State)
    requires PhaseOk(c, s)
    ensures EndOk(c, s)
  {
  }

  lemma {:induction false} RunEnds(c: Setup, steps: seq<Step>)
    requires SetupOk(c)
    ensures EndOk(c, Execution(c, steps))
  {
    RunKeeps(c, steps);
    PhaseEnds(c, Execution(c, steps));
  }

  /** The sender never meets a code the protocol does not allow. */
  lemma {:induction false} NoViolation(c: Setup, steps: seq<Step>)
    requires SetupOk(c)
    ensures !Execution(c, steps).a.Violation?
  {
    RunEnds(c, steps);
  }

  /** Sender and receiver finished alike. */
  ghost predicate Agreement(c: Setup, s: State)
    requires s.a.Finished?
  {
    s.b.Done? && s.b.h == c.m.h && s.a.codes == s.b.finish.codes && s.ab == [] && s.ba == [] &&
    Expected(c) == LocalRecipients(c.w.env, c.m.h, c.w.env.domain) && |s.a.codes| == |Expected(c)| &&
    AllRecipientCodes(s.a.codes) && (ACCEPT in s.a.codes <==> s.b.finish.committed) &&
    s.b.finish.charged == Accepted(Expected(c), s.a.codes, 0, |Expected(c)|)
  }

  /** When the sender has its codes, they are the codes the receiver computed, one
      for each entry of the list both sides read off the same header, in the
      same order; no payload byte is left over; and every 200 among them was
      committed and charged. */
  lemma {:induction false} HostsAgree(c: Setup, steps: seq<Step>)
    requires SetupOk(c) && Execution(c, steps).a.Finished?
    ensures Agreement(c, Execution(c, steps))
  {
    RunEnds(c, steps);
    EndAgrees(c, Execution(c, steps));
  }

  lemma {:induction false} EndAgrees(c: Setup, s: State)
    requires SetupOk(c) && EndOk(c, s) && s.a.Finished?
    ensures Agreement(c, s)
  {
    assert Ready(c) by { SetupIsReady(c); }
    SameRecipients(c);
  }

  // ---- the challenge ----

  /** A challenge is answered exactly when a message is registered under the header hash
      for the very address it comes from, with that message's hash. */
  lemma {:induction false} AnsweredIff(c: Setup, r: Registry<Wire>, h: Header, x: bytes)
    ensures ChallengeAnswer(c, r, h) == Some(x) <==>
      var hash := c.w.cr.hash(Encode(h));
      hash in r && c.ip in r[hash].ips && MessageHash(c.w.cr, r[hash].message) == Some(x)
  {
  }

  ghost predicate Running(s: State) { s.a.AwaitCode? || s.a.AwaitCodes? }

  /** While the sender waits, its registry answers for m, and so did it when asked. */
  ghost predicate Answering(c: Setup, s: State, m: Wire) {
    !s.a.Idle? &&
    (Running(s) ==>
       Lookup(s.registry, c.hash, c.ip) == Some(m) &&
       (s.b.Downloading? && s.b.answer.Some? ==> s.b.answer == MessageHash(c.w.cr, m)))
  }

  /** The receiver's steps leave the sender and the registry alone. */
  ghost predicate SenderAlone(s: State, t: State) { t.a == s.a && t.registry == s.registry }

  lemma {:induction false} ReadRequestAlone(c: Setup, s: State)
    ensures SenderAlone(s, DoReadRequest(c, s)) && !DoReadRequest(c, s).b.Downloading?
  {
  }

  lemma {:induction false} ReplyAlone(c: Setup, s: State, h: Header)
    ensures SenderAlone(s, DoReply(c, s, h))
  {
  }

  lemma {:induction false} ReceiveAlone(c: Setup, s: State, h: Header, code: byte, answer: Option<bytes>)
    ensures SenderAlone(s, DoReceive(c, s, h, code, answer)) && !DoReceive(c, s, h, code, answer).b.Downloading?
  {
  }

  /** A sender that goes on waiting has not removed its message. */
  lemma {:induction false} SenderStays(c: Setup, s: State)
    requires !s.a.Idle?
    ensures s.ba != [] ==>
      var t := DoReadReply(c, s); t.b == s.b && !t.a.Idle? && (Running(t) ==> t.registry == s.registry)
    ensures forall first :: var t := DoReadCodes(c, s, first); !t.a.Idle? && !Running(t)
    ensures forall n :: var t := DoSenderFails(c, s, n); !t.a.Idle? && !Running(t)
  {
  }

  /** The answer the receiver keeps is the one the registry gave. */
  lemma {:induction false} ReplyAnswering(c: Setup, s: State, m: Wire)
    requires Ready(c) && PhaseOk(c, s) && Answering(c, s, m) && s.b.Parsed?
    ensures Answering(c, DoReply(c, s, s.b.h), m)
  {
    ReplyAlone(c, s, s.b.h);
    ReplyCodes(c, c.w.(challengeAnswer := ChallengeAnswer(c, s.registry, c.m.h)));
  }

  lemma {:induction false} AnsweringKept(c: Setup, s: State, step: Step, m: Wire)
    requires Ready(c) && PhaseOk(c, s) && Answering(c, s, m) && step != Other(Remove(c.hash, c.ip))
    ensures Answering(c, Do(c, s, step), m)
  {
    if step.Reply? {
      if s.b.Parsed? { ReplyAnswering(c, s, m); }
    } else {
      AnsweringStays(c, s, step, m);
    }
  }

  lemma {:induction false} AnsweringStays(c: Setup, s: State, step: Step, m: Wire)
    requires Answering(c, s, m) && step != Other(Remove(c.hash, c.ip)) && !step.Reply?
    ensures Answering(c, Do(c, s, step), m)
  {
    match step
    case Start =>
    case PeerFails =>
    case ReadRequest => ReadRequestAlone(c, s);
    case Receive => if s.b.Downloading? { ReceiveAlone(c, s, s.b.h, s.b.code, s.b.answer); }
    case Other(e) => if Running(s) { LookupStays(s.registry, e, c.hash, c.ip); }
    case _ => SenderStays(c, s);
  }

  /** Before it starts the sender is idle. */
  lemma {:induction false} IdleStays(c: Setup, s: State, step: Step)
    requires s.a.Idle? && !step.Start?
    ensures Do(c, s, step).a.Idle?
  {
    match step
    case ReadRequest => ReadRequestAlone(c, s);
    case Reply => if s.b.Parsed? { ReplyAlone(c, s, s.b.h); }
    case Receive => if s.b.Downloading? { ReceiveAlone(c, s, s.b.h, s.b.code, s.b.answer); }
    case _ =>
  }

  lemma {:induction false} NotStarted(c: Setup, s: State, steps: seq<Step>)
    requires s.a.Idle? && Start !in steps
    ensures RunFrom(c, s, steps).a.Idle?
    decreases |steps|
  {
    if steps != [] {
      IdleStays(c, s, steps[0]);
      NotStarted(c, Do(c, s, steps[0]), steps[1..]);
    }
  }

  /** Every run in which the sender has started is one before the start and one after. */
  lemma {:induction false} SplitAtStart(c: Setup, steps: seq<Step>) returns (before: seq<Step>, after: seq<Step>)
    requires !Execution(c, steps).a.Idle?
    ensures steps == before + [Start] + after && Start !in before
  {
    if Start !in steps { NotStarted(c, INITIAL, steps); }
    var i := FirstStart(steps, 0);
    before, after := steps[..i], steps[i + 1..];
  }

  lemma {:induction false} FirstStart(steps: seq<Step>, from: nat) returns (i: nat)
    requires from <= |steps| && Start in steps && Start !in steps[..from]
    ensures i < |steps| && steps[i] == Start && Start !in steps[..i]
    decreases |steps| - from
  {
    assert from < |steps| by { assert steps[..|steps|] == steps; }
    if steps[from] == Start {
      i := from;
    } else {
      assert steps[..from + 1] == steps[..from] + [steps[from]];
      i := FirstStart(steps, from + 1);
    }
  }

  /** The message the registry answers for, after a start upon this registry. */
  function AnswersFor(c: Setup, r: Registry<Wire>): Wire { FirstMessage(r, c.hash, c.m) }

  lemma {:induction false} StartAnswering(c: Setup, s: State)
    requires s.a.Idle? && PhaseOk(c, s)
    ensures Answering(c, DoStart(c, s), AnswersFor(c, s.registry))
  {
  }

  lemma {:induction false} RunAppends(c: Setup, s: State, steps: seq<Step>, after: seq<Step>)
    ensures RunFrom(c, s, steps + after) == RunFrom(c, RunFrom(c, s, steps), after)
    decreases |steps|
  {
    if steps == [] {
      assert steps + after == after;
    } else {
      assert (steps + after)[0] == steps[0] && (steps + after)[1..] == steps[1..] + after;
      RunAppends(c, Do(c, s, steps[0]), steps[1..], after);
    }
  }

  lemma {:induction false} AnsweringLasts(c: Setup, s: State, after: seq<Step>, m: Wire)
    requires SetupOk(c) && PhaseOk(c, s) && Answering(c, s, m) && NoneEnds(c, after)
    ensures Answering(c, RunFrom(c, s, after), m)
    decreases |after|
  {
    if after != [] {
      AnsweringGoesOn(c, s, after[0], m);
      AnsweringLasts(c, Do(c, s, after[0]), after[1..], m);
    }
  }

  lemma {:induction false} AnsweringGoesOn(c: Setup, s: State, step: Step, m: Wire)
    requires SetupOk(c) && PhaseOk(c, s) && Answering(c, s, m) && step != Other(Remove(c.hash, c.ip))
    ensures PhaseOk(c, Do(c, s, step)) && Answering(c, Do(c, s, step), m)
  {
    StepKeeps(c, s, step);
    assert Ready(c) by { SetupIsReady(c); }
    AnsweringKept(c, s, step, m);
  }

  /** From an idle sender's start on. */
  lemma {:induction false} AnsweringFrom(c: Setup, s: State, after: seq<Step>)
    requires SetupOk(c) && PhaseOk(c, s) && s.a.Idle? && NoneEnds(c, after)
    ensures Answering(c, RunFrom(c, s, [Start] + after), AnswersFor(c, s.registry))
  {
    StartKeeps(c, s);
    StartAnswering(c, s);
    AnsweringLasts(c, DoStart(c, s), after, AnswersFor(c, s.registry));
    assert ([Start] + after)[1..] == after;
  }

  lemma {:induction false} RunAnswering(c: Setup, before: seq<Step>, after: seq<Step>)
    requires SetupOk(c) && Start !in before && NoneEnds(c, after)
    ensures Answering(c, Execution(c, before + [Start] + after), AnswersFor(c, Execution(c, before).registry))
  {
    RunKeeps(c, before);
    NotStarted(c, INITIAL, before);
    AnsweringFrom(c, Execution(c, before), after);
    RunAppends(c, INITIAL, before, [Start] + after);
    assert before + [Start] + after == before + ([Start] + after);
  }

  /** No other message is registered under the header hash. */
  ghost predicate HashIsOurs(c: Setup, r: Registry<Wire>) { c.hash !in r || r[c.hash].message == c.m }

  lemma {:induction false} ParsedAnswer(c: Setup, s: State, m: Wire)
    requires Ready(c) && PhaseOk(c, s) && Answering(c, s, m) && s.b.Parsed? && s.a.AwaitCode?
    ensures ChallengeAnswer(c, s.registry, s.b.h) == MessageHash(c.w.cr, m)
  {
  }

  /** A challenge made while the sender waits is answered with the hash of the message
      that was registered first under the header hash, as long as no other
      delivery of the header to this address has ended since the start. It is
      found to be this message if and only if no other was registered under the
      hash when the sender started, whatever is registered later. */
  lemma {:induction false} ChallengeIsAnswered(c: Setup, before: seq<Step>, after: seq<Step>)
    requires SetupOk(c) && Start !in before && NoneEnds(c, after)
    ensures var r := Execution(c, before).registry;
      var s := Execution(c, before + [Start] + after);
      s.b.Parsed? && s.a.AwaitCode? ==>
        ChallengeAnswer(c, s.registry, s.b.h) == MessageHash(c.w.cr, AnswersFor(c, r)) &&
        (Lookup(s.registry, c.hash, c.ip) == Some(c.m) <==> HashIsOurs(c, r))
  {
    var r := Execution(c, before).registry;
    var s := Execution(c, before + [Start] + after);
    RunAnswering(c, before, after);
    RunKeeps(c, before + [Start] + after);
    SetupIsReady(c);
    if s.b.Parsed? && s.a.AwaitCode? { ParsedAnswer(c, s, AnswersFor(c, r)); }
  }

  /** The receiver has the data and a challenge answer, and compares. */
  ghost predicate Comparing(c: Setup, s: State) {
    s.b.Downloading? && !s.a.NoResponse? && Arrived(s.b.h, s.b.code, s.ab) && s.b.answer.Some? &&
    Payload(c.w, s.b.h, s.b.code == SKIP_DATA, s.ab).Some?
  }

  /** The hash over the data downloaded (64) or held (65) is the challenge answer: the
      comparison that would abandon the connection succeeds. */
  ghost predicate Verifies(c: Setup, s: State)
    requires Comparing(c, s)
  {
    MessageHash(c.w.cr, Payload(c.w, s.b.h, s.b.code == SKIP_DATA, s.ab).value.0) == s.b.answer
  }

  /** What the receiver hashes is the message sent, in every run. */
  lemma {:induction false} ComparesOwn(c: Setup, s: State)
    requires Ready(c) && PhaseOk(c, s) && Comparing(c, s)
    ensures MessageHash(c.w.cr, Payload(c.w, s.b.h, s.b.code == SKIP_DATA, s.ab).value.0) == MessageHash(c.w.cr, c.m)
    ensures Running(s)
  {
    DataArrivesWhole(c.w, c.m);
    if s.a.AwaitCode? && s.b.code == CONTINUE { NothingToSend(c.m); }
  }

  /** Whenever the receiver comes to compare, the comparison succeeds if and only if the
      message first registered under the header hash has the hash of the one
      sent; so always, when no other was registered there at the start. */
  lemma {:induction false} ChallengeVerifies(c: Setup, before: seq<Step>, after: seq<Step>)
    requires SetupOk(c) && Start !in before && NoneEnds(c, after)
    ensures var r := Execution(c, before).registry;
      var s := Execution(c, before + [Start] + after);
      Comparing(c, s) ==>
        (Verifies(c, s) <==> MessageHash(c.w.cr, AnswersFor(c, r)) == MessageHash(c.w.cr, c.m)) &&
        (HashIsOurs(c, r) ==> Verifies(c, s))
  {
    var s := Execution(c, before + [Start] + after);
    RunAnswering(c, before, after);
    RunKeeps(c, before + [Start] + after);
    SetupIsReady(c);
    if Comparing(c, s) { ComparesOwn(c, s); }
  }

  lemma {:induction false} ChallengeAnswered(c: Setup, r: Registry<Wire>)
    requires Ready(c) && Lookup(r, c.hash, c.ip) == Some(c.m)
    ensures ChallengeAnswer(c, r, c.m.h) == MessageHash(c.w.cr, c.m)
  {
  }

  // ---- a run without failures ----

  lemma {:induction false} CleanRead(c: Setup, s: State)
    requires s.b == Listening && s.ab == c.request && c.request != []
    requires ReadHeader(c.w.env, c.request) == Got(c.m.h, [])
    ensures Do(c, s, ReadRequest) == s.(b := Parsed(c.m.h), ab := [])
  {
  }

  lemma {:induction false} CleanReply(c: Setup, s: State, w: World, initial: byte, code: byte, answer: Option<bytes>)
    requires s.b == Parsed(c.m.h) && s.ba == []
    requires w == c.w.(challengeAnswer := ChallengeAnswer(c, s.registry, c.m.h))
    requires Admit(w, c.m.h) == Proceed(initial) && Open(w, c.m.h, initial) == Send(code, answer)
    requires ContinueCode(c, code)
    ensures Do(c, s, Step.Reply) == Say(s, [code]).(b := Downloading(c.m.h, code, answer))
  {
    assert [] + [code] == [code];
  }

  lemma {:induction false} CleanReadReply(c: Setup, s: State, code: byte)
    requires s.a == AwaitCode && s.ba == [code] && s.ab == [] && ContinueCode(c, code)
    ensures Do(c, s, ReadReply) == s.(a := AwaitCodes(code), ab := DataFor(c, code), ba := [])
  {
    assert [] + SentData(c.m) == SentData(c.m) && [code][1..] == [];
  }

  lemma {:induction false} CleanReceive(c: Setup, s: State, code: byte, answer: Option<bytes>, f: Finish, rest: bytes)
    requires Sized(c.m) && ContinueCode(c, code)
    requires s.b == Downloading(c.m.h, code, answer) && s.ab == DataFor(c, code) && s.ba == []
    requires Download(c.w, c.m.h, code == SKIP_DATA, answer, s.ab) == Some((f, rest))
    ensures Do(c, s, Receive) == Say(s, f.codes).(b := Done(c.m.h, f), ab := rest)
  {
    assert Arrived(c.m.h, code, s.ab) by { DataArrived(c, code); }
    assert [] + f.codes == f.codes;
  }

  lemma {:induction false} DataArrived(c: Setup, code: byte)
    requires Sized(c.m) && ContinueCode(c, code)
    ensures Arrived(c.m.h, code, DataFor(c, code))
  {
    DataArrivesWhole(c.w, c.m);
  }

  lemma {:induction false} CleanReadCodes(c: Setup, s: State, code: byte, f: Finish)
    requires s.a == AwaitCodes(code) && s.b == Done(c.m.h, f) && s.ba == f.codes && |f.codes| == |Expected(c)|
    ensures Do(c, s, ReadCodes).a == Finished(code, f.codes)
  {
    assert f.codes[..|f.codes|] == f.codes;
  }

  /** The header is read, admitted and answered. */
  lemma {:induction false} CleanOpens(c: Setup, s: State, w: World, initial: byte, code: byte, answer: Option<bytes>)
    requires Ready(c) && Lookup(s.registry, c.hash, c.ip) == Some(c.m)
    requires s.a == AwaitCode && s.b == Listening && s.ab == c.request && s.ba == []
    requires c.request != [] && ReadHeader(c.w.env, c.request) == Got(c.m.h, [])
    requires w == c.w.(challengeAnswer := MessageHash(c.w.cr, c.m))
    requires Admit(w, c.m.h) == Proceed(initial) && Open(w, c.m.h, initial) == Send(code, answer)
    requires ContinueCode(c, code)
    ensures var t := Do(c, Do(c, s, ReadRequest), Step.Reply);
      t.a == AwaitCode && t.b == Downloading(c.m.h, code, answer) && t.ab == [] && t.ba == [code]
  {
    var s2 := s.(b := Parsed(c.m.h), ab := []);
    assert Do(c, s, ReadRequest) == s2 by { CleanRead(c, s); }
    ChallengeAnswered(c, s2.registry);
    CleanReply(c, s2, w, initial, code, answer);
    assert [] + [code] == [code];
  }

  /** The data is sent, stored and answered with codes. */
  lemma {:induction false} CleanEnds(c: Setup, s: State, code: byte, answer: Option<bytes>, f: Finish, rest: bytes)
    requires Ready(c) && ContinueCode(c, code)
    requires s.a == AwaitCode && s.b == Downloading(c.m.h, code, answer) && s.ab == [] && s.ba == [code]
    requires Download(c.w, c.m.h, code == SKIP_DATA, answer, DataFor(c, code)) == Some((f, rest))
    ensures Do(c, Do(c, Do(c, s, ReadReply), Receive), ReadCodes).a == Finished(code, f.codes)
  {
    var s4 := s.(a := AwaitCodes(code), ab := DataFor(c, code), ba := []);
    var s5 := Say(s4, f.codes).(b := Done(c.m.h, f), ab := rest);
    assert s5.ba == f.codes by { assert [] + f.codes == f.codes; }
    assert Do(c, s, ReadReply) == s4 by { CleanReadReply(c, s, code); }
    assert Do(c, s4, Receive) == s5 by { CleanReceive(c, s4, code, answer, f, rest); }
    assert |f.codes| == |Expected(c)| by {
      SameRecipients(c);
      DownloadSettles(c.w, c.m.h, code == SKIP_DATA, answer, DataFor(c, code));
    }
    CleanReadCodes(c, s5, code, f);
  }

  /** Without failures the exchange runs to its end: from the state where the
      header is in flight, a receiver that admits the message and downloads it
      gives the sender exactly the codes it computed. */
  lemma {:induction false} CleanRunFinishes(c: Setup, s: State, w: World, initial: byte, code: byte,
                                            answer: Option<bytes>, f: Finish, rest: bytes)
    requires Ready(c) && Lookup(s.registry, c.hash, c.ip) == Some(c.m)
    requires s.a == AwaitCode && s.b == Listening && s.ab == c.request && s.ba == []
    requires c.request != [] && ReadHeader(c.w.env, c.request) == Got(c.m.h, [])
    requires w == c.w.(challengeAnswer := MessageHash(c.w.cr, c.m))
    requires Admit(w, c.m.h) == Proceed(initial) && Open(w, c.m.h, initial) == Send(code, answer)
    requires ContinueCode(c, code)
    requires Download(c.w, c.m.h, code == SKIP_DATA, answer, DataFor(c, code)) == Some((f, rest))
    ensures Do(c, Do(c, Do(c, Do(c, Do(c, s, ReadRequest), Step.Reply), ReadReply), Receive), ReadCodes).a ==
            Finished(code, f.codes)
  {
    CleanOpens(c, s, w, initial, code, answer);
    CleanEnds(c, Do(c, Do(c, s, ReadRequest), Step.Reply), code, answer, f, rest);
  }
}
