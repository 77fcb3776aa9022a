/** The exchange between two hosts as a protocol: deliverUnit of cmd/fmsgd/sender.go
    on one side, handleConn of cmd/fmsgd/host.go on the other, the challenge on the
    second connection, and other deliveries of the sender going on beside it. */
module Exchange {
  import opened Prelude
  import opened Header
  import opened Parser
  import opened Codec
  import opened Identity
  import opened Receiver
  import opened Outgoing

  /** The receiving host, the message sent, its encoded header and header hash,
      the domain it is sent to, and the address of the receiving host. */
  datatype Setup = Setup(w: World, m: Wire, request: bytes, hash: bytes, target: bytes, ip: Ip)

  // ---- the two hosts ----

  datatype Sender =
    | Idle
    | AwaitCode
    | AwaitCodes(first: byte)
    | Refused(code: byte)              // 1 to 10: recorded for every recipient
    | Notified                         // 11: recorded as delivered
    | Finished(first: byte, codes: bytes)
    | NoResponse                       // nothing usable: retried later
    | Violation(code: byte)            // a code the protocol does not allow here

  datatype Peer =
    | Listening
    | Parsed(h: Header)
    | Downloading(h: Header, code: byte, answer: Option<bytes>)
    | Done(h: Header, finish: Finish)
    | Closed

  /** Both hosts, the bytes in flight each way, all the receiver wrote so far, and the
      sender's registry. */
  datatype State = State(a: Sender, b: Peer, ab: bytes, ba: bytes, wrote: bytes, registry: Registry<Wire>)

  /** The receiver writes. */
  function Say(s: State, b: bytes): State { s.(ba := s.ba + b, wrote := s.wrote + b) }

  datatype Step = Start | ReadRequest | Reply | ReadReply | Receive | ReadCodes
                | SenderFails(written: nat) | PeerFails | Other(event: Event<Wire>)

  function HeaderHash(cr: Crypto, h: Header): bytes { cr.hash(Encode(h)) }

  /** sendMsgData: the body, then every attachment. */
  function SentData(m: Wire): bytes { m.body + Concat(m.atts) }

  /** The entries the sender expects one code each for. */
  function Expected(c: Setup): seq<Address> {
    OnDomainOf(c.w.env, c.m.h.to, c.target) +
    (if c.m.h.flags.hasAddTo then OnDomainOf(c.w.env, c.m.h.addTo, c.target) else [])
  }

  /** handleChallenge at the sender: the answer to a challenge for a header. */
  function ChallengeAnswer(c: Setup, r: Registry<Wire>, h: Header): Option<bytes> {
    match Lookup(r, HeaderHash(c.w.cr, h), c.ip)
    case None => None
    case Some(m) => MessageHash(c.w.cr, m)
  }

  function Unregistered(c: Setup, r: Registry<Wire>): Registry<Wire> {
    Apply(r, Remove(c.hash, c.ip))
  }

  function End(c: Setup, s: State, a: Sender): State {
    s.(a := a, registry := Unregistered(c, s.registry))
  }

  function DoStart(c: Setup, s: State): State {
    s.(a := AwaitCode, ab := s.ab + c.request,
       registry := Apply(s.registry, Register(c.hash, c.m, c.ip)))
  }

  function DoReadRequest(c: Setup, s: State): State {
    match ReadHeader(c.w.env, s.ab)
    case Stop => s.(b := Closed)
    case Refuse(code) => Say(s, [code]).(b := Closed)
    case Got(h, rest) => s.(b := Parsed(h), ab := rest)
  }

  /** Admission, the optional challenge, and the initial code. */
  function DoReply(c: Setup, s: State, h: Header): State {
    var w := c.w.(challengeAnswer := ChallengeAnswer(c, s.registry, h));
    match Admit(w, h)
    case Drop => s.(b := Closed)
    case Reply(code) => Say(s, [code]).(b := Closed)
    case Proceed(initial) =>
      match Open(w, h, initial)
      case Abort => s.(b := Closed)
      case Send(code, answer) =>
        if code == CONTINUE || code == SKIP_DATA then Say(s, [code]).(b := Downloading(h, code, answer))
        else Say(s, [code]).(b := Closed)
  }

  /** The switch of deliverUnit on the initial response byte. */
  function DoReadReply(c: Setup, s: State): State
    requires s.ba != []
  {
    var code := s.ba[0];
    var t := s.(ba := s.ba[1..]);
    if code == CONTINUE then t.(a := AwaitCodes(code), ab := s.ab + SentData(c.m))
    else if code == SKIP_DATA then
      if c.m.h.flags.hasAddTo then t.(a := AwaitCodes(code)) else End(c, t, Violation(code))
    else if code == ACCEPT_ADD_TO then
      if c.m.h.flags.hasAddTo then End(c, t, Notified) else End(c, t, Violation(code))
    else if 1 <= code <= 10 then End(c, t, Refused(code))
    else End(c, t, Violation(code))
  }

  function DoReceive(c: Setup, s: State, h: Header, code: byte, answer: Option<bytes>): State {
    match Download(c.w, h, code == SKIP_DATA, answer, s.ab)
    case None => s.(b := Closed)
    case Some((finish, rest)) => Say(s, finish.codes).(b := Done(h, finish), ab := rest)
  }

  function DoReadCodes(c: Setup, s: State, first: byte): State {
    var n := |Expected(c)|;
    if |s.ba| < n then End(c, s, NoResponse)
    else End(c, s.(ba := s.ba[n..]), Finished(first, s.ba[..n]))
  }

  function Cut(b: bytes, n: nat): bytes { if n < |b| then b[..n] else b }

  /** A write that fails midway, or any other failure: only the first n of the bytes the
      receiver has not read yet were written. */
  function DoSenderFails(c: Setup, s: State, n: nat): State { End(c, s.(ab := Cut(s.ab, n)), NoResponse) }

  /** The payload the receiver waits for has arrived. */
  predicate Arrived(h: Header, code: byte, ab: bytes) {
    code == SKIP_DATA || TakeParts(PartSizes(h), ab).Some?
  }

  /** One step; a step that is not enabled changes nothing. Other deliveries of the
      sender register and remove what they like. */
  function Do(c: Setup, s: State, step: Step): State {
    match step
    case Start => if s.a.Idle? then DoStart(c, s) else s
    case ReadRequest => if s.b.Listening? && s.ab != [] then DoReadRequest(c, s) else s
    case Reply => if s.b.Parsed? then DoReply(c, s, s.b.h) else s
    case ReadReply => if s.a.AwaitCode? && s.ba != [] then DoReadReply(c, s) else s
    case Receive =>
      if s.b.Downloading? && Arrived(s.b.h, s.b.code, s.ab) then DoReceive(c, s, s.b.h, s.b.code, s.b.answer) else s
    case ReadCodes =>
      if s.a.AwaitCodes? && (|s.ba| >= |Expected(c)| || s.b.Closed? || s.b.Done?) then DoReadCodes(c, s, s.a.first)
      else s
    case SenderFails(n) => if s.a.AwaitCode? || s.a.AwaitCodes? then DoSenderFails(c, s, n) else s
    case PeerFails => if s.b.Done? then s else s.(b := Closed)
    case Other(e) => s.(registry := Apply(s.registry, e))
  }

  /** The steps of a run, from a state on. */
  function RunFrom(c: Setup, s: State, steps: seq<Step>): State
    decreases |steps|
  {
    if steps == [] then s else RunFrom(c, Do(c, s, steps[0]), steps[1..])
  }

  const INITIAL: State := State(Idle, Listening, [], [], [], map[])

  function Execution(c: Setup, steps: seq<Step>): State { RunFrom(c, INITIAL, steps) }

  // ---- what is assumed of the setup ----

  ghost predicate Sized(m: Wire) {
    |m.body| == m.h.size && |m.atts| == |m.h.attachments| &&
    forall i :: 0 <= i < |m.atts| ==> |m.atts[i]| == m.h.attachments[i].size
  }

  /** The sender holds a message that is well-formed but for the receiver's clock and
      limits, and its files; the target is the receiver's domain; and if the
      receiver holds the message a batch adds to, it reconstructs the batch as
      the sender sealed it (EndToEnd.SealedBatchIsReconstructed). */
  ghost predicate SetupOk(c: Setup) {
    WellFormed(Library(c.w.env), c.m.h) &&
    c.request == Encode(c.m.h) && c.hash == HeaderHash(c.w.cr, c.m.h) &&
    c.w.env.fold(c.target) == c.w.env.fold(c.w.env.domain) &&
    Sized(c.m) && MessageHash(c.w.cr, c.m).Some? &&
    (c.m.h.flags.hasAddTo && c.w.byHash(c.m.h.pid).Found? ==>
       Reconstruct(c.w.cr, c.m.h, c.w.byHash(c.m.h.pid).value.wire) == MessageHash(c.w.cr, c.m))
  }

  /** No other delivery of this header to this address ends meanwhile. */
  ghost predicate NoneEnds(c: Setup, steps: seq<Step>) { Other(Remove(c.hash, c.ip)) !in steps }
}
