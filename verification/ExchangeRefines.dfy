/** What the two hosts of the exchange say and hear: the sender hears what the receiver
    writes, and the receiver writes what handleConn does. */
module ExchangeRefines {
  import opened Prelude
  import opened Many
  import opened Header
  import opened Parser
  import opened Codec
  import opened Identity
  import opened Receiver
  import opened ReceiverProofs
  import opened Exchange
  import opened ExchangeProofs

  // ---- the sender hears what is written ----

  /** The response bytes a sender has read, in order. */
  function Heard(a: Sender): bytes {
    match a
    case Idle => []
    case AwaitCode => []
    case AwaitCodes(first) => [first]
    case Refused(code) => [code]
    case Notified => [ACCEPT_ADD_TO]
    case Finished(first, codes) => [first] + codes
    case NoResponse => []
    case Violation(code) => [code]
  }

  /** Until it gives up, what the sender read and what is on its way is all that was
      written. */
  ghost predicate StreamOk(s: State) { !s.a.NoResponse? ==> s.wrote == Heard(s.a) + s.ba }

  lemma {:induction false} SayStreams(s: State, b: bytes)
    requires StreamOk(s)
    ensures StreamOk(Say(s, b)) && Say(s, b).a == s.a
  {
    if !s.a.NoResponse? { Assoc(Heard(s.a), s.ba, b); }
  }

  lemma {:induction false} ReadRequestStreams(c: Setup, s: State)
    requires StreamOk(s)
    ensures StreamOk(DoReadRequest(c, s))
  {
    var got := ReadHeader(c.w.env, s.ab);
    if got.Refuse? { SayStreams(s, [got.code]); }
  }

  lemma {:induction false} ReplyStreams(c: Setup, s: State, h: Header)
    requires StreamOk(s)
    ensures StreamOk(DoReply(c, s, h))
  {
    var w := c.w.(challengeAnswer := ChallengeAnswer(c, s.registry, h));
    var v := Admit(w, h);
    if v.Reply? { SayStreams(s, [v.code]); }
    if v.Proceed? {
      var o := Open(w, h, v.initial);
      if o.Send? { SayStreams(s, [o.code]); }
    }
  }

  lemma {:induction false} ReceiveStreams(c: Setup, s: State, h: Header, code: byte, answer: Option<bytes>)
    requires StreamOk(s)
    ensures StreamOk(DoReceive(c, s, h, code, answer))
  {
    var d := Download(c.w, h, code == SKIP_DATA, answer, s.ab);
    if d.Some? { SayStreams(s, d.value.0.codes); }
  }

  lemma {:induction false} ReadReplyStreams(c: Setup, s: State)
    requires StreamOk(s) && s.a.AwaitCode? && s.ba != []
    ensures StreamOk(DoReadReply(c, s))
  {
    ReadReplyHears(c, s);
    Uncons(s.ba);
  }

  /** Whatever the sender makes of the code, it has read that one byte. */
  lemma {:induction false} ReadReplyHears(c: Setup, s: State)
    requires s.ba != []
    ensures var t := DoReadReply(c, s); t.wrote == s.wrote && t.ba == s.ba[1..] && Heard(t.a) == [s.ba[0]]
  {
  }

  lemma {:induction false} Uncons(b: bytes)
    requires b != []
    ensures [] + b == b && b == [b[0]] + b[1..]
  {
  }

  lemma {:induction false} ReadCodesStreams(c: Setup, s: State)
    requires StreamOk(s) && s.a.AwaitCodes?
    ensures StreamOk(DoReadCodes(c, s, s.a.first))
  {
    var n := |Expected(c)|;
    if n <= |s.ba| {
      assert s.ba == s.ba[..n] + s.ba[n..];
      Assoc([s.a.first], s.ba[..n], s.ba[n..]);
    }
  }

  lemma {:induction false} StepStreams(c: Setup, s: State, step: Step)
    requires StreamOk(s)
    ensures StreamOk(Do(c, s, step))
  {
    match step
    case ReadRequest => ReadRequestStreams(c, s);
    case Reply => if s.b.Parsed? { ReplyStreams(c, s, s.b.h); }
    case ReadReply => if s.a.AwaitCode? && s.ba != [] { ReadReplyStreams(c, s); }
    case Receive => if s.b.Downloading? { ReceiveStreams(c, s, s.b.h, s.b.code, s.b.answer); }
    case ReadCodes => if s.a.AwaitCodes? { ReadCodesStreams(c, s); }
    case _ =>
  }

  lemma {:induction false} RunStreams(c: Setup, s: State, steps: seq<Step>)
    requires StreamOk(s)
    ensures StreamOk(RunFrom(c, s, steps))
    decreases |steps|
  {
    if steps != [] {
      StepStreams(c, s, steps[0]);
      RunStreams(c, Do(c, s, steps[0]), steps[1..]);
    }
  }

  /** In every run, a sender that has ended with an answer heard exactly what the receiver
      wrote, to the last byte: a refusal is the receiver's own code. */
  lemma {:induction false} HeardIsWritten(c: Setup, steps: seq<Step>)
    requires SetupOk(c)
    ensures var s := Execution(c, steps);
      s.a.Refused? || s.a.Notified? || s.a.Finished? ==> s.wrote == Heard(s.a)
  {
    var s := Execution(c, steps);
    RunStreams(c, INITIAL, steps);
    RunEnds(c, steps);
    assert Heard(s.a) + [] == Heard(s.a);
  }

  // ---- the receiver writes what handleConn does ----

  /** The receiving host with an answer to its challenge. */
  function With(c: Setup, answer: Option<bytes>): World { c.w.(challengeAnswer := answer) }

  /** What was written is what handleConn writes on some input, given some answer to its
      challenge, or the beginning of it. */
  ghost predicate BeganAs(c: Setup, wrote: bytes) {
    exists x: Option<bytes>, input: bytes :: wrote <= Serve(With(c, x), input).written
  }

  /** It is all handleConn writes, and the download ended as there. */
  ghost predicate ServedAs(c: Setup, wrote: bytes, f: Finish) {
    exists x: Option<bytes>, input: bytes ::
      Serve(With(c, x), input).written == wrote && Serve(With(c, x), input).finish == Some(f)
  }

  ghost predicate OpenedAs(c: Setup, h: Header, code: byte, answer: Option<bytes>) {
    (code == CONTINUE || code == SKIP_DATA) &&
    exists x: Option<bytes> :: Admit(With(c, x), h) == Proceed(code) && Open(With(c, x), h, code) == Send(code, answer)
  }

  ghost predicate Serving(c: Setup, s: State) {
    match s.b
    case Listening => s.wrote == []
    case Parsed(h) => s.wrote == [] && WellFormed(c.w.env, h)
    case Downloading(h, code, answer) => s.wrote == [code] && WellFormed(c.w.env, h) && OpenedAs(c, h, code, answer)
    case Done(_, f) => ServedAs(c, s.wrote, f)
    case Closed => BeganAs(c, s.wrote)
  }

  /** The challenge answer plays no part in the download but for the comparison. */
  lemma {:induction false} LoopIgnoresAnswer(c: Setup, x: Option<bytes>, h: Header, hash: bytes, addrs: seq<Address>,
                                             numTo: nat, i: nat, p: Progress)
    requires i <= |addrs|
    ensures DeliverFrom(With(c, x), h, hash, addrs, numTo, i, p) == DeliverFrom(c.w, h, hash, addrs, numTo, i, p)
    decreases |addrs| - i
  {
    if i < |addrs| {
      var q := Deliver(c.w, h, hash, addrs[i], i, i < numTo, p);
      assert Deliver(With(c, x), h, hash, addrs[i], i, i < numTo, p) == q;
      if q.Some? { LoopIgnoresAnswer(c, x, h, hash, addrs, numTo, i + 1, q.value); }
    }
  }

  lemma {:induction false} DownloadIgnoresAnswer(c: Setup, x: Option<bytes>, h: Header, skip: bool,
                                                 answer: Option<bytes>,
                                                 s: bytes)
    ensures Download(With(c, x), h, skip, answer, s) == Download(c.w, h, skip, answer, s)
  {
    var addrs := LocalRecipients(c.w.env, h, c.w.env.domain);
    var numTo := |OnDomainOf(c.w.env, h.to, c.w.env.domain)|;
    var p := Payload(c.w, h, skip, s);
    assert Payload(With(c, x), h, skip, s) == p;
    if p.Some? && MessageHash(c.w.cr, p.value.0).Some? {
      LoopIgnoresAnswer(c, x, h, Canonical(h, MessageHash(c.w.cr, p.value.0).value), addrs, numTo, 0,
                        Progress([], [], [], false, false));
    }
  }

  /** What handleConn does with an opened header and this data behind it. */
  lemma {:induction false} ServeOpened(c: Setup, x: Option<bytes>, h: Header, code: byte, answer: Option<bytes>,
                                       data: bytes)
    requires WellFormed(c.w.env, h) && (code == CONTINUE || code == SKIP_DATA)
    requires Admit(With(c, x), h) == Proceed(code) && Open(With(c, x), h, code) == Send(code, answer)
    ensures var run := Serve(With(c, x), Encode(h) + data);
      match Download(c.w, h, code == SKIP_DATA, answer, data)
      case None => run.written == [code] && run.finish == None
      case Some((f, _)) => run.written == [code] + f.codes && run.finish == Some(f)
  {
    assert ReadHeader(c.w.env, Encode(h) + data) == Got(h, data) by { HeaderComplete(c.w.env, h, data); }
    DownloadIgnoresAnswer(c, x, h, code == SKIP_DATA, answer, data);
  }

  lemma {:induction false} OpenedBegan(c: Setup, h: Header, code: byte, answer: Option<bytes>)
    requires WellFormed(c.w.env, h) && OpenedAs(c, h, code, answer)
    ensures BeganAs(c, [code])
  {
    var x: Option<bytes> :| Admit(With(c, x), h) == Proceed(code) && Open(With(c, x), h, code) == Send(code, answer);
    ServeOpened(c, x, h, code, answer, []);
    assert [code] <= Serve(With(c, x), Encode(h) + []).written;
  }

  lemma {:induction false} NothingBegan(c: Setup)
    ensures BeganAs(c, [])
  {
    assert [] <= Serve(With(c, None), []).written;
  }

  lemma {:induction false} ReadRequestServes(c: Setup, s: State)
    requires s.b.Listening? && Serving(c, s)
    ensures Serving(c, DoReadRequest(c, s))
  {
    var got := ReadHeader(c.w.env, s.ab);
    match got
    case Stop => NothingBegan(c);
    case Refuse(code) =>
      assert s.wrote + [code] == [code];
      assert [code] <= Serve(With(c, None), s.ab).written;
    case Got(h, rest) => HeaderCodec(c.w.env, s.ab, h, rest);
  }

  lemma {:induction false} ReplyServes(c: Setup, s: State)
    requires s.b.Parsed? && Serving(c, s)
    ensures Serving(c, DoReply(c, s, s.b.h))
  {
    var h := s.b.h;
    var x := ChallengeAnswer(c, s.registry, h);
    var v := Admit(With(c, x), h);
    AdmitCodes(With(c, x), h);
    match v
    case Drop => NothingBegan(c);
    case Reply(code) =>
      ServeReplies(c, x, h, code);
      SaidServes(c, s, code);
    case Proceed(initial) =>
      OpenCodes(With(c, x), h, initial);
      var o := Open(With(c, x), h, initial);
      match o
      case Abort => NothingBegan(c);
      case Send(code, answer) =>
        if code == CONTINUE || code == SKIP_DATA {
          OpenServes(c, s, h, x, code, answer);
        } else {
          ServeReplies(c, x, h, code);
          SaidServes(c, s, code);
        }
  }

  lemma {:induction false} SaidServes(c: Setup, s: State, code: byte)
    requires s.wrote == [] && BeganAs(c, [code])
    ensures Serving(c, Say(s, [code]).(b := Closed))
  {
    assert s.wrote + [code] == [code];
  }

  lemma {:induction false} OpenServes(c: Setup, s: State, h: Header, x: Option<bytes>, code: byte,
                                      answer: Option<bytes>)
    requires s.wrote == [] && WellFormed(c.w.env, h) && (code == CONTINUE || code == SKIP_DATA)
    requires Admit(With(c, x), h) == Proceed(code) && Open(With(c, x), h, code) == Send(code, answer)
    ensures Serving(c, Say(s, [code]).(b := Downloading(h, code, answer)))
  {
    assert s.wrote + [code] == [code];
    assert OpenedAs(c, h, code, answer);
  }

  lemma {:induction false} DoneServes(c: Setup, s: State, h: Header, f: Finish, rest: bytes, x: Option<bytes>,
                                      input: bytes)
    requires var run := Serve(With(c, x), input); run.written == s.wrote + f.codes && run.finish == Some(f)
    ensures Serving(c, Say(s, f.codes).(b := Done(h, f), ab := rest))
  {
    assert ServedAs(c, s.wrote + f.codes, f);
  }

  /** A header answered with one code is answered so by handleConn. */
  lemma {:induction false} ServeReplies(c: Setup, x: Option<bytes>, h: Header, code: byte)
    requires WellFormed(c.w.env, h)
    requires var v := Admit(With(c, x), h);
      v == Verdict.Reply(code) ||
      (v.Proceed? && code != CONTINUE && code != SKIP_DATA &&
       Open(With(c, x), h, v.initial).Send? && Open(With(c, x), h, v.initial).code == code)
    ensures BeganAs(c, [code])
  {
    assert ReadHeader(c.w.env, Encode(h) + []) == Got(h, []) by { HeaderComplete(c.w.env, h, []); }
    assert [code] <= Serve(With(c, x), Encode(h) + []).written;
  }

  lemma {:induction false} ReceiveServes(c: Setup, s: State)
    requires s.b.Downloading? && Serving(c, s)
    ensures Serving(c, DoReceive(c, s, s.b.h, s.b.code, s.b.answer))
  {
    var h, code, answer := s.b.h, s.b.code, s.b.answer;
    var d := Download(c.w, h, code == SKIP_DATA, answer, s.ab);
    if d.None? {
      OpenedBegan(c, h, code, answer);
    } else {
      var x: Option<bytes> :| Admit(With(c, x), h) == Proceed(code) && Open(With(c, x), h, code) == Send(code, answer);
      ServeOpened(c, x, h, code, answer, s.ab);
      DoneServes(c, s, h, d.value.0, d.value.1, x, Encode(h) + s.ab);
    }
  }

  lemma {:induction false} PeerFailsServes(c: Setup, s: State)
    requires Serving(c, s) && !s.b.Done?
    ensures Serving(c, s.(b := Closed))
  {
    match s.b
    case Downloading(h, code, answer) => OpenedBegan(c, h, code, answer);
    case _ => NothingBegan(c);
  }

  /** The sender's steps leave the receiver alone. */
  lemma {:induction false} SenderSteps(c: Setup, s: State, step: Step)
    requires step.Start? || step.ReadReply? || step.ReadCodes? || step.SenderFails? || step.Other?
    ensures Do(c, s, step).b == s.b && Do(c, s, step).wrote == s.wrote
  {
  }

  lemma {:induction false} StepServes(c: Setup, s: State, step: Step)
    requires Serving(c, s)
    ensures Serving(c, Do(c, s, step))
  {
    match step
    case ReadRequest => if s.b.Listening? && s.ab != [] { ReadRequestServes(c, s); }
    case Reply => if s.b.Parsed? { ReplyServes(c, s); }
    case Receive => if s.b.Downloading? && Arrived(s.b.h, s.b.code, s.ab) { ReceiveServes(c, s); }
    case PeerFails => if !s.b.Done? { PeerFailsServes(c, s); }
    case _ => SenderSteps(c, s, step);
  }

  lemma {:induction false} RunServes(c: Setup, s: State, steps: seq<Step>)
    requires Serving(c, s)
    ensures Serving(c, RunFrom(c, s, steps))
    decreases |steps|
  {
    if steps != [] {
      StepServes(c, s, steps[0]);
      RunServes(c, Do(c, s, steps[0]), steps[1..]);
    }
  }

  /** In every run of the exchange the receiver is handleConn: what it has written is the
      beginning of what handleConn writes on some input and challenge answer, and
      when it is done, all of it, with the same download behind it. */
  lemma {:induction false} ReceiverIsHandleConn(c: Setup, steps: seq<Step>)
    ensures var s := Execution(c, steps);
      BeganAs(c, s.wrote) && (s.b.Done? ==> ServedAs(c, s.wrote, s.b.finish))
  {
    RunServes(c, INITIAL, steps);
    ServingBegan(c, Execution(c, steps));
  }

  lemma {:induction false} ServingBegan(c: Setup, s: State)
    requires Serving(c, s)
    ensures BeganAs(c, s.wrote)
  {
    match s.b
    case Downloading(h, code, answer) => OpenedBegan(c, h, code, answer);
    case Done(_, f) =>
      var x: Option<bytes>, input: bytes :|
        Serve(With(c, x), input).written == s.wrote && Serve(With(c, x), input).finish == Some(f);
    case Closed =>
    case _ => NothingBegan(c);
  }
}
