/** The receiving side of a message connection (cmd/fmsgd/host.go), from the
    parsed header to the last response byte. */
module Receiver {
  import opened Prelude
  import opened Header
  import opened Parser
  import opened Identity
  import opened SizeLimits

  const UNDISCLOSED: byte := 3
  const PARENT_NOT_FOUND: byte := 6
  const TIME_TRAVEL: byte := 9
  const DUPLICATE: byte := 10
  const ACCEPT_ADD_TO: byte := 11
  const CONTINUE: byte := 64
  const SKIP_DATA: byte := 65
  const USER_UNKNOWN: byte := 100
  const USER_FULL: byte := 101
  const USER_NOT_ACCEPTING: byte := 102
  const USER_DUPLICATE: byte := 103
  const USER_UNDISCLOSED: byte := 105
  const ACCEPT: byte := 200

  /** A store lookup: an error, nothing, or a value. */
  datatype Found<+T> = Failed | Missing | Found(value: T)

  /** A stored message as loaded: its header with every added recipient, its
      payload files, its time, and whether it can still be retrieved. */
  datatype Parent = Parent(wire: Wire, time: real, retrievable: bool)

  /** An address's limits and usage; a limit of -1 is unlimited. */
  datatype Detail = Detail(acceptingNew: bool, limitCount: int, count: int,
                           limitSizePerDay: int, sizePerDay: int, limitSizeTotal: int, sizeTotal: int)

  datatype Mode = Always | Never | HasNotParticipated

  /** What the host asks of its database, its disk, its DNS and the other host. */
  datatype World = World(
    env: Env, cr: Crypto,
    senderOk: bytes -> bool,
    byHash: bytes -> Found<Parent>, byBatch: bytes -> Found<Parent>, recorded: bytes -> Option<bool>,
    mode: Mode, participated: bytes -> Option<bool>, challengeAnswer: Option<bytes>,
    received: (bytes, Address) -> Option<bool>, detail: Address -> Found<Detail>,
    headerStored: bool, dirOk: nat -> bool, copyOk: nat -> bool, preserved: bool, persistOk: nat -> bool,
    stored: bool)

  // ---- admission: what the header is answered ----

  datatype Verdict = Proceed(initial: byte) | Reply(code: byte) | Drop

  predicate OnDomain(env: Env, a: Address, domain: bytes) { env.fold(a.domain) == env.fold(domain) }

  predicate HasDomainRecipient(env: Env, addrs: seq<Address>, domain: bytes) {
    exists a :: a in addrs && OnDomain(env, a, domain)
  }

  predicate Participates(env: Env, a: Address, who: seq<Address>) { Key(env, a) in Keys(env, who) }

  function SenderDomain(h: Header): bytes {
    if h.addTo != [] && h.addToFrom.Some? then h.addToFrom.value.domain else h.from.domain
  }

  function ParentNotStored(env: Env, h: Header): Verdict {
    if HasDomainRecipient(env, h.addTo, env.domain) || HasDomainRecipient(env, h.to, env.domain) then Proceed(CONTINUE)
    else Reply(PARENT_NOT_FOUND)
  }

  function AddToVerdict(w: World, h: Header, parent: Parent): Verdict {
    if parent.wire.h.flags.terminal then Reply(INVALID)
    else if parent.time - w.env.futureDelta > w.env.clock(h.time) then Reply(TIME_TRAVEL)
    else if h.addToFrom.None? ||
            !Participates(w.env, h.addToFrom.value, [parent.wire.h.from] + parent.wire.h.to) then Reply(INVALID)
    else
      match Reconstruct(w.cr, h, parent.wire)
      case None => Drop
      case Some(batchHash) =>
        match w.recorded(batchHash)
        case None => Drop
        case Some(true) => Reply(DUPLICATE)
        case Some(false) =>
          if HasDomainRecipient(w.env, h.addTo, w.env.domain) then Proceed(SKIP_DATA) else Proceed(ACCEPT_ADD_TO)
  }

  /** handleAddToPath */
  function AddToPath(w: World, h: Header): Verdict {
    match w.byHash(h.pid)
    case Failed => Drop
    case Missing => ParentNotStored(w.env, h)
    case Found(parent) =>
      if !parent.retrievable then ParentNotStored(w.env, h) else AddToVerdict(w, h, parent)
  }

  function PidParent(w: World, pid: bytes): Found<Parent> {
    if w.byHash(pid).Missing? then w.byBatch(pid) else w.byHash(pid)
  }

  /** validatePidReplyPath */
  function ReplyPath(w: World, h: Header): Verdict {
    match PidParent(w, h.pid)
    case Failed => Drop
    case Missing => Reply(PARENT_NOT_FOUND)
    case Found(parent) =>
      var p := parent.wire.h;
      if !parent.retrievable then Reply(PARENT_NOT_FOUND)
      else if parent.time - w.env.futureDelta > w.env.clock(h.time) then Reply(TIME_TRAVEL)
      else if !Participates(w.env, h.from, [p.from] + p.to +
                (if p.addToFrom.Some? then [p.addToFrom.value] else []) + p.addTo) then Reply(INVALID)
      else if p.flags.terminal then Reply(INVALID)
      else Proceed(CONTINUE)
  }

  /** The rest of readHeader, after the attachment headers. */
  function Admit(w: World, h: Header): Verdict {
    var env := w.env;
    if !HasDomainRecipient(env, h.to, env.domain) && !HasDomainRecipient(env, h.addTo, env.domain) &&
       !(h.addTo != [] && OnDomain(env, h.from, env.domain)) then Reply(INVALID)
    else if !w.senderOk(SenderDomain(h)) then Drop
    else if h.addTo != [] then AddToPath(w, h)
    else if h.flags.hasPid then ReplyPath(w, h)
    else Proceed(CONTINUE)
  }

  // ---- local recipients ----

  /** The entries of a list on a domain, in order. */
  function OnDomainOf(env: Env, addrs: seq<Address>, domain: bytes): seq<Address> {
    if addrs == [] then []
    else
      var init := OnDomainOf(env, addrs[..|addrs| - 1], domain);
      if OnDomain(env, addrs[|addrs| - 1], domain) then init + [addrs[|addrs| - 1]] else init
  }

  /** One entry per list entry: an address in both lists is there twice. */
  function LocalRecipients(env: Env, h: Header, domain: bytes): seq<Address> {
    OnDomainOf(env, h.to, domain) + OnDomainOf(env, h.addTo, domain)
  }

  lemma {:induction false} OnDomainOfEmpty(env: Env, addrs: seq<Address>, domain: bytes)
    ensures OnDomainOf(env, addrs, domain) != [] <==> HasDomainRecipient(env, addrs, domain)
  {
    if addrs != [] {
      var init, last := addrs[..|addrs| - 1], addrs[|addrs| - 1];
      OnDomainOfEmpty(env, init, domain);
      assert forall a :: a in addrs <==> a in init || a == last;
    }
  }

  // ---- challenge and initial code ----

  function ShouldChallenge(w: World, h: Header): Option<bool> {
    match w.mode
    case Never => Some(false)
    case Always => Some(true)
    case HasNotParticipated =>
      if !h.flags.hasPid || h.pid == [] then Some(true)
      else
        match w.participated(h.pid)
        case None => None
        case Some(p) => Some(!p)
  }

  /** allLocalRecipientsHaveMessageHash, over a non-empty list. */
  function AllReceived(w: World, hash: bytes, addrs: seq<Address>): Option<bool> {
    if addrs == [] then Some(true)
    else
      match w.received(hash, addrs[0])
      case None => None
      case Some(false) => Some(false)
      case Some(true) => AllReceived(w, hash, addrs[1..])
  }

  /** resolvePostChallengeCode */
  function Resolve(initial: byte, challenged: bool, allDuplicate: bool): byte {
    if initial == ACCEPT_ADD_TO then ACCEPT_ADD_TO
    else if challenged && allDuplicate then DUPLICATE
    else if initial == SKIP_DATA then SKIP_DATA
    else CONTINUE
  }

  /** What handleConn does once the header is admitted: the challenge answer it
      holds, and the code it sends. */
  datatype Opening = Abort | Send(code: byte, answer: Option<bytes>)

  function Open(w: World, h: Header, initial: byte): Opening {
    match ShouldChallenge(w, h)
    case None => Abort
    case Some(false) => Answered(w, h, initial, None)
    case Some(true) => if w.challengeAnswer.None? then Abort else Answered(w, h, initial, w.challengeAnswer)
  }

  function Answered(w: World, h: Header, initial: byte, answer: Option<bytes>): Opening {
    var addrs := LocalRecipients(w.env, h, w.env.domain);
    var duplicate :=
      if answer.None? || initial == ACCEPT_ADD_TO || addrs == [] then Some(false)
      else AllReceived(w, if h.flags.hasAddTo then h.pid else answer.value, addrs);
    match duplicate
    case None => Send(UNDISCLOSED, answer)
    case Some(all) =>
      var code := Resolve(initial, answer.Some?, all);
      if code == ACCEPT_ADD_TO && !w.headerStored then Send(UNDISCLOSED, answer) else Send(code, answer)
  }

  // ---- download ----

  /** The attachment payloads of an uncompressed read: exactly the declared sizes. */
  function TakeParts(sizes: seq<nat>, s: bytes): Option<(seq<bytes>, bytes)> {
    if sizes == [] then Some(([], s))
    else if |s| < sizes[0] then None
    else
      match TakeParts(sizes[1..], s[sizes[0]..])
      case None => None
      case Some((parts, rest)) => Some(([s[..sizes[0]]] + parts, rest))
  }

  function PartSizes(h: Header): seq<nat> {
    [h.size] + seq(|h.attachments|, i requires 0 <= i < |h.attachments| => h.attachments[i].size)
  }

  /** The payloads and the unread rest: downloaded (64), or stored (65). */
  function Payload(w: World, h: Header, skip: bool, s: bytes): Option<(Wire, bytes)> {
    if skip then
      match w.byHash(h.pid)
      case Failed => None
      case Missing => None
      case Found(parent) =>
        if |parent.wire.atts| != |h.attachments| then None
        else Some((Wire(h, parent.wire.body, parent.wire.atts), s))
    else
      match TakeParts(PartSizes(h), s)
      case None => None
      case Some((parts, rest)) => if parts == [] then None else Some((Wire(h, parts[0], parts[1..]), rest))
  }

  predicate LimitExceeded(d: Detail, size: int) {
    (d.limitCount > -1 && d.count + 1 > d.limitCount) ||
    (d.limitSizePerDay > -1 && d.sizePerDay + size > d.limitSizePerDay) ||
    (d.limitSizeTotal > -1 && d.sizeTotal + size > d.limitSizeTotal)
  }

  /** validateMsgRecvForAddr; None is a failed lookup. */
  function ValidateRecipient(w: World, h: Header, a: Address, hash: bytes): Option<byte> {
    match w.received(hash, a)
    case None => None
    case Some(true) => Some(USER_DUPLICATE)
    case Some(false) =>
      match w.detail(a)
      case Failed => None
      case Missing => Some(USER_UNKNOWN)
      case Found(d) =>
        if !d.acceptingNew then Some(USER_NOT_ACCEPTING)
        else if LimitExceeded(d, TrueExpanded(h)) then Some(USER_FULL)
        else Some(ACCEPT)
  }

  /** The state of downloadMessage's loop. `primary` says that the attachments
      are persisted and `wired` that the wire form is preserved. */
  datatype Progress = Progress(codes: bytes, to: seq<Address>, addTo: seq<Address>, primary: bool, wired: bool)

  /** One recipient; None abandons the connection. */
  function Deliver(w: World, h: Header, hash: bytes, a: Address, i: nat, isTo: bool, p: Progress): Option<Progress> {
    match ValidateRecipient(w, h, a, hash)
    case None => None
    case Some(code) =>
      if code != ACCEPT then Some(p.(codes := p.codes + [code]))
      else if !w.dirOk(i) then None
      else if !w.copyOk(i) then Some(p.(codes := p.codes + [USER_UNDISCLOSED]))
      else
        var q := p.(codes := p.codes + [ACCEPT], to := if isTo then p.to + [a] else p.to,
                    addTo := if isTo then p.addTo else p.addTo + [a]);
        if p.primary then Some(q)
        else if !p.wired && !w.preserved then None
        else if w.persistOk(i) then Some(q.(primary := true, wired := true))
        else Some(Progress(p.codes + [USER_UNDISCLOSED], [], [], false, true))
  }

  function DeliverFrom(w: World, h: Header, hash: bytes, addrs: seq<Address>, numTo: nat, i: nat,
                       p: Progress): Option<Progress>
    requires i <= |addrs|
    decreases |addrs| - i
  {
    if i == |addrs| then Some(p)
    else
      match Deliver(w, h, hash, addrs[i], i, i < numTo, p)
      case None => None
      case Some(q) => DeliverFrom(w, h, hash, addrs, numTo, i + 1, q)
  }

  /** The end of a download: the codes sent, whether the message was committed to
      the store, and the recipients charged for it. */
  datatype Finish = Finish(codes: bytes, committed: bool, charged: seq<Address>)

  /** Codes after storage failed: every acceptance becomes undisclosed. */
  function Downgraded(codes: bytes): bytes {
    seq(|codes|, i requires 0 <= i < |codes| => if codes[i] == ACCEPT then USER_UNDISCLOSED else codes[i])
  }

  /** storeAcceptedMessage */
  function Settle(w: World, p: Progress): Finish {
    if p.to == [] && p.addTo == [] then Finish(p.codes, false, [])
    else if !w.stored then Finish(Downgraded(p.codes), false, [])
    else Finish(p.codes, true, p.to + p.addTo)
  }

  /** canonicalMsgHash */
  function Canonical(h: Header, hash: bytes): bytes { if h.flags.hasAddTo then h.pid else hash }

  /** downloadMessage: how it finishes and what it leaves unread, or None when the
      connection is abandoned without codes. */
  function Download(w: World, h: Header, skip: bool, answer: Option<bytes>, s: bytes): Option<(Finish, bytes)> {
    var addrs := LocalRecipients(w.env, h, w.env.domain);
    if addrs == [] then None
    else
      match Payload(w, h, skip, s)
      case None => None
      case Some((wire, rest)) =>
        match MessageHash(w.cr, wire)
        case None => None
        case Some(hash) =>
          if answer.Some? && answer.value != hash then None
          else
            match DeliverFrom(w, h, Canonical(h, hash), addrs, |OnDomainOf(w.env, h.to, w.env.domain)|, 0,
                              Progress([], [], [], false, false))
            case None => None
            case Some(p) => Some((Settle(w, p), rest))
  }

  // ---- the connection ----

  /** One message connection: the bytes written, the input left unread, and the
      effects of a finished download. */
  datatype Run = Run(written: bytes, unread: bytes, finish: Option<Finish>)

  function Converse(w: World, h: Header, rest: bytes): Run {
    match Admit(w, h)
    case Drop => Run([], rest, None)
    case Reply(code) => Run([code], rest, None)
    case Proceed(initial) =>
      match Open(w, h, initial)
      case Abort => Run([], rest, None)
      case Send(code, answer) =>
        if code != CONTINUE && code != SKIP_DATA then Run([code], rest, None)
        else
          match Download(w, h, code == SKIP_DATA, answer, rest)
          case None => Run([code], rest, None)
          case Some((finish, unread)) => Run([code] + finish.codes, unread, Some(finish))
  }

  /** handleConn on a message connection. */
  function Serve(w: World, s: bytes): Run {
    match ReadHeader(w.env, s)
    case Stop => Run([], [], None)
    case Refuse(code) => Run([code], [], None)
    case Got(h, rest) => Converse(w, h, rest)
  }
}
