/** Runs in which the code does not do what one might expect: two messages with one
    header, and an add-to of a message already held. */
module Failures {
  import opened Prelude
  import opened Many
  import opened Header
  import opened Parser
  import opened Codec
  import opened Identity
  import opened Receiver
  import opened Outgoing
  import opened Exchange
  import opened ExchangeProofs
  import opened InboundRows
  import opened Witness

  // ---- two messages with one header ----

  function ByteHeader(): Header { PlainHeader().(size := 1) }

  /** The same header and another body. */
  const MINE: Wire := Wire(ByteHeader(), [1], [])
  const OTHER: Wire := Wire(ByteHeader(), [2], [])

  /** The setup of Witness.PlainSetup with a one-byte body, and a receiver that always
      challenges. */
  function ByteSetup(): Setup {
    Setup(PlainWorld().(mode := Always), MINE, Encode(ByteHeader()), Encode(ByteHeader()), LOCALHOST, "peer")
  }

  lemma {:induction false} ByteWellFormed()
    ensures WellFormed(PlainEnv(), ByteHeader())
  {
    var env, h := PlainEnv(), ByteHeader();
    assert Sendable(env, SENDER) && Sendable(env, RECIPIENT);
    assert RoutingOk(env, RoutingOf(h));
    assert DescriptionOk(env, h.flags, DescriptionOf(h));
    assert PayloadsOk(env, h.flags, PayloadsOf(h));
  }

  lemma {:induction false} ByteHashes()
    ensures MessageHash(PlainWorld().cr, MINE) == Some(Encode(ByteHeader()) + [1])
    ensures MessageHash(PlainWorld().cr, OTHER) == Some(Encode(ByteHeader()) + [2])
    ensures MessageHash(PlainWorld().cr, MINE) != MessageHash(PlainWorld().cr, OTHER)
  {
    assert [1] + [] == [1] && [2] + [] == [2];
    var x, y := Encode(ByteHeader()) + [1], Encode(ByteHeader()) + [2];
    assert x[|x| - 1] != y[|y| - 1];
  }

  lemma {:induction false} ByteSetupOk()
    ensures SetupOk(ByteSetup())
  {
    ByteWellFormed();
    WellFormedInLibrary(PlainEnv(), ByteHeader());
    ByteHashes();
  }

  /** The receiver admits the message and goes on with the answer it got. */
  lemma {:induction false} ByteAdmitted(w: World)
    requires w == ByteSetup().w.(challengeAnswer := w.challengeAnswer) && w.challengeAnswer.Some?
    ensures Admit(w, ByteHeader()) == Proceed(CONTINUE)
    ensures Open(w, ByteHeader(), CONTINUE) == Send(CONTINUE, w.challengeAnswer)
  {
    assert RECIPIENT in ByteHeader().to && OnDomain(w.env, RECIPIENT, w.env.domain);
    ByteRecipients(w.env);
  }

  lemma {:induction false} ByteRecipients(env: Env)
    requires env == PlainEnv()
    ensures LocalRecipients(env, ByteHeader(), env.domain) == [RECIPIENT]
  {
    var to := ByteHeader().to;
    assert to[..0] == [];
    assert OnDomainOf(env, to[..0], env.domain) == [];
  }

  /** The other message is registered under the hash before the sender starts. */
  function Earlier(): seq<Step> { [Other(Register(ByteSetup().hash, OTHER, "peer"))] }

  function Later(): seq<Step> { [ReadRequest, Step.Reply, ReadReply] }

  /** The state in which the receiver has the sender's data and the other's hash. */
  ghost predicate Confused(c: Setup, s: State) {
    s.a == AwaitCodes(CONTINUE) && s.b == Downloading(c.m.h, CONTINUE, MessageHash(c.w.cr, OTHER)) &&
    s.ab == SentData(c.m) && s.ba == []
  }

  lemma {:induction false} StartedAfterOther(c: Setup)
    requires c == ByteSetup()
    ensures var s := Do(c, Do(c, INITIAL, Earlier()[0]), Start);
      s.a == AwaitCode && s.b == Listening && s.ab == c.request && s.ba == [] &&
      Lookup(s.registry, c.hash, c.ip) == Some(OTHER)
  {
    assert [] + c.request == c.request;
  }

  lemma {:induction false} ByteRead(c: Setup)
    requires c == ByteSetup()
    ensures ReadHeader(c.w.env, c.request) == Got(c.m.h, []) && c.request != []
  {
    ByteWellFormed();
    HeaderComplete(c.w.env, c.m.h, []);
    assert Encode(c.m.h) + [] == Encode(c.m.h);
  }

  lemma {:induction false} BecomesConfused(c: Setup, s: State)
    requires c == ByteSetup() && s.a == AwaitCode && s.b == Listening && s.ab == c.request && s.ba == []
    requires Lookup(s.registry, c.hash, c.ip) == Some(OTHER)
    ensures Confused(c, Do(c, Do(c, Do(c, s, ReadRequest), Step.Reply), ReadReply))
  {
    ByteRead(c);
    var s2 := s.(b := Parsed(c.m.h), ab := []);
    assert Do(c, s, ReadRequest) == s2 by { CleanRead(c, s); }
    var answer := ChallengeAnswer(c, s2.registry, c.m.h);
    assert answer == MessageHash(c.w.cr, OTHER) && answer.Some? by { ByteHashes(); }
    var s3 := Say(s2, [CONTINUE]).(b := Downloading(c.m.h, CONTINUE, answer));
    assert Do(c, s2, Step.Reply) == s3 by {
      var w := c.w.(challengeAnswer := answer);
      ByteAdmitted(w);
      CleanReply(c, s2, w, CONTINUE, CONTINUE, answer);
    }
    CleanReadReply(c, s3, CONTINUE);
  }

  /** A confused receiver compares, finds the hashes different and gives up. */
  lemma {:induction false} ConfusedGivesUp(c: Setup, s: State)
    requires c == ByteSetup() && Confused(c, s)
    ensures Comparing(c, s) && !Verifies(c, s) && Do(c, s, Receive).b == Closed
  {
    ByteHashes();
    assert Sized(c.m);
    DataArrivesWhole(c.w, c.m);
    ByteRecipients(c.w.env);
  }

  /** Two messages with one header to one address: the second is challenged while the
      first is in flight, the answer is the first's hash, and a receiver that did
      nothing wrong abandons a sender that did nothing wrong. */
  lemma {:induction false} TwoMessagesOneHeader()
    ensures var c := ByteSetup();
      var s := Execution(c, Earlier() + [Start] + Later());
      SetupOk(c) && Start !in Earlier() && NoneEnds(c, Later()) && !HashIsOurs(c, Execution(c, Earlier()).registry) &&
      Comparing(c, s) && !Verifies(c, s) && Do(c, s, Receive).b == Closed
  {
    ByteSetupOk();
    OthersIsThere(ByteSetup());
    EndsConfused(ByteSetup());
    ConfusedGivesUp(ByteSetup(), Execution(ByteSetup(), Earlier() + [Start] + Later()));
  }

  lemma {:induction false} EndsConfused(c: Setup)
    requires c == ByteSetup()
    ensures Confused(c, Execution(c, Earlier() + [Start] + Later()))
  {
    StartedAfterOther(c);
    BecomesConfused(c, Do(c, Do(c, INITIAL, Earlier()[0]), Start));
    FiveSteps(c, INITIAL, Earlier() + [Start] + Later());
  }

  lemma {:induction false} OthersIsThere(c: Setup)
    requires c == ByteSetup()
    ensures !HashIsOurs(c, Execution(c, Earlier()).registry)
  {
    var s := Do(c, INITIAL, Earlier()[0]);
    assert Earlier()[1..] == [];
    assert RunFrom(c, s, []) == s;
    assert Execution(c, Earlier()) == s;
    assert MINE.body[0] != OTHER.body[0];
  }

  lemma {:induction false} FiveSteps(c: Setup, s: State, p: seq<Step>)
    requires |p| == 5
    ensures RunFrom(c, s, p) == Do(c, Do(c, Do(c, Do(c, Do(c, s, p[0]), p[1]), p[2]), p[3]), p[4])
  {
    ThreeSteps(c, s, p);
    var t, q := Do(c, Do(c, Do(c, s, p[0]), p[1]), p[2]), p[3..];
    assert q[1..][1..] == [];
    assert RunFrom(c, t, q) == RunFrom(c, Do(c, t, q[0]), q[1..]);
  }

  // ---- an add-to of a message already held ----

  const ADDED: Address := Address([99], LOCALHOST)
  const PID: bytes := EIGHT + EIGHT + EIGHT + EIGHT

  /** The sender of the plain message adds a user who is unknown here. */
  function AddToHeader(): Header { BatchHeader(PlainHeader(), PID, Batch(SENDER, EIGHT, [ADDED])) }

  /** A host that holds the plain message, with its recipient known and taking messages. */
  function HolderWorld(): World {
    PlainWorld().(byHash := p => if p == PID then Found(Parent(Wire(PlainHeader(), [], []), 0.0, true)) else Missing,
                  detail := a => if a == ADDED then Missing else Found(Detail(true, -1, 0, -1, 0, -1, 0)))
  }

  lemma {:induction false} AddToWellFormed()
    ensures WellFormed(PlainEnv(), AddToHeader())
  {
    var env := PlainEnv();
    PlainWellFormed();
    assert Sendable(env, SENDER) && Sendable(env, ADDED) && ListOk(env, [ADDED]);
    assert InFromOrTo(env, SENDER, PlainHeader().from, PlainHeader().to);
    BatchWellFormed(env, PlainHeader(), PID, Batch(SENDER, EIGHT, [ADDED]));
  }

  lemma {:induction false} AddToRecipients()
    ensures LocalRecipients(PlainEnv(), AddToHeader(), LOCALHOST) == [RECIPIENT, ADDED]
    ensures OnDomainOf(PlainEnv(), AddToHeader().to, LOCALHOST) == [RECIPIENT]
  {
    var h := AddToHeader();
    assert h.to[..0] == [] && h.addTo[..0] == [];
    assert OnDomainOf(PlainEnv(), h.to[..0], LOCALHOST) == [];
    assert OnDomainOf(PlainEnv(), h.addTo[..0], LOCALHOST) == [];
  }

  lemma {:induction false} AddToAdmitted()
    ensures Admit(HolderWorld(), AddToHeader()) == Proceed(SKIP_DATA)
    ensures Open(HolderWorld(), AddToHeader(), SKIP_DATA) == Send(SKIP_DATA, None)
  {
    var w, h := HolderWorld(), AddToHeader();
    assert ADDED in h.addTo && OnDomain(w.env, ADDED, w.env.domain);
    var p := w.byHash(h.pid).value.wire.h;
    assert SENDER in [p.from] + p.to;
    assert Participates(w.env, SENDER, [p.from] + p.to);
    assert Reconstruct(w.cr, h, w.byHash(h.pid).value.wire).Some?;
  }

  lemma {:induction false} AddToLoop(hash: bytes)
    ensures DeliverFrom(HolderWorld(), AddToHeader(), hash, [RECIPIENT, ADDED], 1, 0,
                        Progress([], [], [], false, false)) ==
            Some(Progress([ACCEPT, USER_UNKNOWN], [RECIPIENT], [], true, true))
  {
    var w, h := HolderWorld(), AddToHeader();
    var start := Progress([], [], [], false, false);
    var p := Progress([ACCEPT], [RECIPIENT], [], true, true);
    var q := p.(codes := [ACCEPT, USER_UNKNOWN]);
    assert ADDED != RECIPIENT;
    assert ValidateRecipient(w, h, RECIPIENT, hash) == Some(ACCEPT);
    assert ValidateRecipient(w, h, ADDED, hash) == Some(USER_UNKNOWN);
    assert start.codes + [ACCEPT] == [ACCEPT] && start.to + [RECIPIENT] == [RECIPIENT];
    assert p.codes + [USER_UNKNOWN] == [ACCEPT, USER_UNKNOWN];
    assert Deliver(w, h, hash, RECIPIENT, 0, true, start) == Some(p);
    assert Deliver(w, h, hash, ADDED, 1, false, p) == Some(q);
    assert DeliverFrom(w, h, hash, [RECIPIENT, ADDED], 1, 2, q) == Some(q);
    assert DeliverFrom(w, h, hash, [RECIPIENT, ADDED], 1, 1, p) == Some(q);
  }

  lemma {:induction false} AddToDownload()
    ensures Download(HolderWorld(), AddToHeader(), true, None, []) ==
            Some((Finish([ACCEPT, USER_UNKNOWN], true, [RECIPIENT]), []))
  {
    var w, h := HolderWorld(), AddToHeader();
    AddToRecipients();
    var m := Wire(h, [], []);
    assert Payload(w, h, true, []) == Some((m, []));
    assert MessageHash(w.cr, m).Some?;
    AddToLoop(Canonical(h, MessageHash(w.cr, m).value));
    assert [RECIPIENT] + [] == [RECIPIENT];
  }

  /** A connection that reads a header, admits it and downloads. */
  lemma {:induction false} Downloads(w: World, s: bytes, h: Header, rest: bytes, code: byte, answer: Option<bytes>,
                                     f: Finish, unread: bytes)
    requires ReadHeader(w.env, s) == Got(h, rest) && Admit(w, h) == Proceed(code)
    requires Open(w, h, code) == Send(code, answer) && (code == CONTINUE || code == SKIP_DATA)
    requires Download(w, h, code == SKIP_DATA, answer, rest) == Some((f, unread))
    ensures Serve(w, s) == Run([code] + f.codes, unread, Some(f))
  {
  }

  lemma {:induction false} AddToRead()
    ensures ReadHeader(HolderWorld().env, Encode(AddToHeader())) == Got(AddToHeader(), [])
  {
    var env, h := HolderWorld().env, AddToHeader();
    AddToWellFormed();
    HeaderComplete(env, h, []);
    assert Encode(h) + [] == Encode(h);
  }

  /** The whole connection: 65, then 200 for the recipient and 100 for the added user,
      and the message is committed. */
  lemma {:induction false} HeldAddToRuns(w: World, h: Header, s: bytes)
    requires w == HolderWorld() && h == AddToHeader() && s == Encode(h)
    ensures Serve(w, s) ==
            Run([SKIP_DATA, ACCEPT, USER_UNKNOWN], [], Some(Finish([ACCEPT, USER_UNKNOWN], true, [RECIPIENT])))
  {
    AddToRead();
    AddToAdmitted();
    AddToDownload();
    var f := Finish([ACCEPT, USER_UNKNOWN], true, [RECIPIENT]);
    Downloads(w, s, h, [], SKIP_DATA, None, f, []);
    assert [SKIP_DATA] + f.codes == [SKIP_DATA, ACCEPT, USER_UNKNOWN];
  }

  /** What the store makes of that run, when the recipient was answered 102 before: the
      recipient, now answered 200, is still recorded with 102, and the added user,
      answered 100, as delivered. */
  method HeldAddToRecorded() returns (ok: bool, recipient: RowState, added: RowState)
    ensures var run := Serve(HolderWorld(), Encode(AddToHeader()));
      ok && run.finish.Some? && run.finish.value.committed && |run.finish.value.codes| == 2 &&
      RowFor(run.finish.value.codes[0]) == Delivered && recipient == Undelivered(USER_NOT_ACCEPTING) &&
      RowFor(run.finish.value.codes[1]) == Undelivered(USER_UNKNOWN) && added == Delivered
  {
    var w, h := HolderWorld(), AddToHeader();
    HeldAddToRuns(w, h, Encode(h));
    var rows := new RecipientRows(false, map[AddressText(RECIPIENT) := Undelivered(USER_NOT_ACCEPTING)]);
    ok := rows.Attach(w.env, h, 0);
    InsertedHas(w.env, h.addTo, 0, map[], 0);
    recipient := rows.to[AddressText(RECIPIENT)];
    added := rows.added[(0, AddressText(ADDED))];
  }
}
