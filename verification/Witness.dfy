/** One delivery from beginning to end: what the theorems about the exchange ask of a
    setup can be met, and a run that ends with an acceptance exists. */
module Witness {
  import opened Prelude
  import opened Many
  import opened Header
  import opened Parser
  import opened Codec
  import opened Identity
  import opened Receiver
  import opened Exchange
  import opened ExchangeProofs

  const MAX: u32 := TWO32 - 1

  function PlainEnv(): Env {
    Env(LOCALHOST, x => x, x => true, x => true, map[], x => 0.0, 0.0, 1.0, 1.0, MAX, MAX)
  }

  const SENDER: Address := Address([97], LOCALHOST)
  const RECIPIENT: Address := Address([98], LOCALHOST)
  const EIGHT: bytes := [0, 0, 0, 0, 0, 0, 0, 0]

  function PlainHeader(): Header {
    Header(1, Flags(false, false, false, false, false, false, false, false), [], SENDER, [RECIPIENT],
           None, [], EIGHT, [], 0, [], 0, 0, [])
  }

  function PlainWorld(): World {
    World(PlainEnv(), Crypto(x => x, x => None), d => true, p => Missing, p => Missing, p => Some(false),
          Never, p => Some(false), None, (h, a) => Some(false), a => Found(Detail(true, -1, 0, -1, 0, -1, 0)),
          true, i => true, i => true, true, i => true, true)
  }

  function PlainSetup(): Setup {
    var m := Wire(PlainHeader(), [], []);
    Setup(PlainWorld(), m, Encode(m.h), PlainWorld().cr.hash(Encode(m.h)), LOCALHOST, "peer")
  }

  lemma {:induction false} PlainWellFormed()
    ensures WellFormed(PlainEnv(), PlainHeader())
  {
    var env, h := PlainEnv(), PlainHeader();
    assert Sendable(env, SENDER) && Sendable(env, RECIPIENT);
    assert RoutingOk(env, RoutingOf(h));
    assert DescriptionOk(env, h.flags, DescriptionOf(h));
    assert PayloadsOk(env, h.flags, PayloadsOf(h));
  }

  lemma {:induction false} PlainSetupOk()
    ensures SetupOk(PlainSetup())
  {
    PlainWellFormed();
    WellFormedInLibrary(PlainEnv(), PlainHeader());
  }

  lemma {:induction false} PlainRecipients()
    ensures LocalRecipients(PlainEnv(), PlainHeader(), LOCALHOST) == [RECIPIENT]
    ensures OnDomainOf(PlainEnv(), PlainHeader().to, LOCALHOST) == [RECIPIENT]
  {
    var to := PlainHeader().to;
    assert to[..0] == [];
    assert OnDomainOf(PlainEnv(), to[..0], LOCALHOST) == [];
  }

  lemma {:induction false} PlainAdmitted(w: World)
    requires w == PlainWorld().(challengeAnswer := w.challengeAnswer)
    ensures Admit(w, PlainHeader()) == Proceed(CONTINUE)
    ensures Open(w, PlainHeader(), CONTINUE) == Send(CONTINUE, None)
  {
    assert RECIPIENT in PlainHeader().to && OnDomain(w.env, RECIPIENT, w.env.domain);
  }

  lemma {:induction false} PlainLoop(hash: bytes)
    ensures DeliverFrom(PlainWorld(), PlainHeader(), hash, [RECIPIENT], 1, 0, Progress([], [], [], false, false)) ==
            Some(Progress([ACCEPT], [RECIPIENT], [], true, true))
  {
    var w, h := PlainWorld(), PlainHeader();
    var start := Progress([], [], [], false, false);
    var p := Progress([ACCEPT], [RECIPIENT], [], true, true);
    assert ValidateRecipient(w, h, RECIPIENT, hash) == Some(ACCEPT);
    assert start.codes + [ACCEPT] == [ACCEPT] && start.to + [RECIPIENT] == [RECIPIENT];
    assert Deliver(w, h, hash, RECIPIENT, 0, true, start) == Some(p);
    assert DeliverFrom(w, h, hash, [RECIPIENT], 1, 1, p) == Some(p);
  }

  lemma {:induction false} PlainDownload()
    ensures Download(PlainWorld(), PlainHeader(), false, None, []) == Some((Finish([ACCEPT], true, [RECIPIENT]), []))
  {
    var w, m := PlainWorld(), Wire(PlainHeader(), [], []);
    PlainRecipients();
    assert Payload(w, m.h, false, []) == Some((m, [])) by {
      assert Sized(m) && SentData(m) == [];
      DataArrivesWhole(w, m);
    }
    assert MessageHash(w.cr, m).Some?;
    PlainLoop(Canonical(m.h, MessageHash(w.cr, m).value));
    assert [RECIPIENT] + [] == [RECIPIENT];
  }

  function PlainRun(): seq<Step> { [Start, ReadRequest, Step.Reply, ReadReply, Receive, ReadCodes] }

  lemma {:induction false} SixSteps(c: Setup, s: State, p: seq<Step>)
    requires |p| == 6
    ensures RunFrom(c, s, p) == Do(c, Do(c, Do(c, Do(c, Do(c, Do(c, s, p[0]), p[1]), p[2]), p[3]), p[4]), p[5])
  {
    var s3 := Do(c, Do(c, Do(c, s, p[0]), p[1]), p[2]);
    ThreeSteps(c, s, p);
    ThreeSteps(c, s3, p[3..]);
  }

  lemma {:induction false} ThreeSteps(c: Setup, s: State, p: seq<Step>)
    requires |p| >= 3
    ensures RunFrom(c, s, p) == RunFrom(c, Do(c, Do(c, Do(c, s, p[0]), p[1]), p[2]), p[3..])
  {
    assert RunFrom(c, s, p) == RunFrom(c, Do(c, s, p[0]), p[1..]);
    assert p[1..][1..] == p[2..] && p[2..][1..] == p[3..];
  }

  lemma {:induction false} PlainRead(c: Setup)
    requires c == PlainSetup()
    ensures ReadHeader(c.w.env, c.request) == Got(c.m.h, [])
  {
    PlainWellFormed();
    HeaderComplete(c.w.env, c.m.h, []);
    assert Encode(c.m.h) + [] == Encode(c.m.h);
  }

  /** From the state where the header is in flight, the clean run ends with a 200. */
  lemma {:induction false} PlainFinishes(c: Setup, s: State)
    requires c == PlainSetup() && s == DoStart(c, INITIAL)
    ensures Do(c, Do(c, Do(c, Do(c, Do(c, s, ReadRequest), Step.Reply), ReadReply), Receive), ReadCodes).a ==
            Finished(CONTINUE, [ACCEPT])
  {
    PlainSetupOk();
    SetupIsReady(c);
    var w := c.w.(challengeAnswer := MessageHash(c.w.cr, c.m));
    PlainAdmitted(w);
    PlainDownload();
    PlainRead(c);
    assert s.ab == c.request by { assert [] + c.request == c.request; }
    CleanRunFinishes(c, s, w, CONTINUE, CONTINUE, None, Finish([ACCEPT], true, [RECIPIENT]), []);
  }

  /** A run in which the receiver accepts, and the sender reads, a 200. */
  lemma {:induction false} DeliveryHappens()
    ensures SetupOk(PlainSetup())
    ensures Execution(PlainSetup(), PlainRun()).a == Finished(CONTINUE, [ACCEPT])
  {
    var c := PlainSetup();
    PlainSetupOk();
    SixSteps(c, INITIAL, PlainRun());
    PlainFinishes(c, DoStart(c, INITIAL));
  }
}
