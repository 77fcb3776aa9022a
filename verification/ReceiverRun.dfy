/** The receiver as the source runs it: one connection, codes filled in place.
    Each method does what the functions of Receiver say. */
module ReceiverRun {
  import opened Prelude
  import opened Header
  import opened Parser
  import opened Connection
  import opened Identity
  import opened Receiver

  /** localRecipients: to entries first, then add-to entries. */
  method CollectLocal(env: Env, h: Header, domain: bytes) returns (addrs: seq<Address>, numTo: nat)
    ensures addrs == LocalRecipients(env, h, domain) && numTo == |OnDomainOf(env, h.to, domain)|
  {
    addrs := [];
    for i := 0 to |h.to|
      invariant addrs == OnDomainOf(env, h.to[..i], domain)
    {
      assert h.to[..i + 1][..i] == h.to[..i];
      if OnDomain(env, h.to[i], domain) { addrs := addrs + [h.to[i]]; }
    }
    assert h.to[..|h.to|] == h.to;
    numTo := |addrs|;
    ghost var to := addrs;
    for i := 0 to |h.addTo|
      invariant addrs == to + OnDomainOf(env, h.addTo[..i], domain)
    {
      assert h.addTo[..i + 1][..i] == h.addTo[..i];
      if OnDomain(env, h.addTo[i], domain) { addrs := addrs + [h.addTo[i]]; }
    }
    assert h.addTo[..|h.addTo|] == h.addTo;
  }

  method AllLocalReceived(w: World, hash: bytes, addrs: seq<Address>) returns (r: Option<bool>)
    ensures r == if addrs == [] then Some(false) else AllReceived(w, hash, addrs)
  {
    if |addrs| == 0 { return Some(false); }
    assert addrs[0..] == addrs;
    for i := 0 to |addrs|
      invariant AllReceived(w, hash, addrs) == AllReceived(w, hash, addrs[i..])
    {
      assert addrs[i..][1..] == addrs[i + 1..];
      var duplicate := w.received(hash, addrs[i]);
      if duplicate != Some(true) { return duplicate; }
    }
    r := Some(true);
  }

  /** The reads of prepareMessageData: the body, then each attachment. */
  method ReadParts(c: Conn, sizes: seq<nat>) returns (parts: Option<seq<bytes>>)
    modifies c
    ensures c.written == old(c.written)
    ensures match TakeParts(sizes, old(c.input))
      case None => parts == None
      case Some((ps, rest)) => parts == Some(ps) && c.input == rest
  {
    ghost var whole := TakeParts(sizes, c.input);
    var done: seq<bytes> := [];
    assert sizes[0..] == sizes;
    assert whole.Some? ==> done + whole.value.0 == whole.value.0;
    for i := 0 to |sizes|
      invariant c.written == old(c.written)
      invariant match TakeParts(sizes[i..], c.input)
        case None => whole == None
        case Some((ps, rest)) => whole == Some((done + ps, rest))
    {
      assert sizes[i..][1..] == sizes[i + 1..];
      ghost var before := c.input;
      var part := c.NextFull(sizes[i]);
      if part.None? { return None; }
      ghost var later := TakeParts(sizes[i + 1..], c.input);
      if later.Some? {
        assert done + ([part.value] + later.value.0) == done + [part.value] + later.value.0;
      }
      done := done + [part.value];
    }
    assert done + [] == done;
    parts := Some(done);
  }

  method PrepareMessageData(c: Conn, w: World, h: Header, skip: bool) returns (r: Option<Wire>)
    modifies c
    ensures c.written == old(c.written)
    ensures match Payload(w, h, skip, old(c.input))
      case None => r == None
      case Some((wire, rest)) => r == Some(wire) && c.input == rest
  {
    if skip {
      var parent := w.byHash(h.pid);
      if !parent.Found? { return None; }
      if |parent.value.wire.atts| != |h.attachments| { return None; }
      return Some(Wire(h, parent.value.wire.body, parent.value.wire.atts));
    }
    var parts := ReadParts(c, PartSizes(h));
    if parts.None? || parts.value == [] { return None; }
    r := Some(Wire(h, parts.value[0], parts.value[1..]));
  }

  /** The recipient loop of downloadMessage, filling codes in place. */
  method DeliverAll(w: World, h: Header, hash: bytes, addrs: seq<Address>, numTo: nat, codes: array<byte>)
    returns (r: Option<Progress>)
    requires codes.Length == |addrs|
    modifies codes
    ensures r == DeliverFrom(w, h, hash, addrs, numTo, 0, Progress([], [], [], false, false))
    ensures r.Some? && |r.value.codes| == |addrs| ==> codes[..] == r.value.codes
  {
    ghost var whole := DeliverFrom(w, h, hash, addrs, numTo, 0, Progress([], [], [], false, false));
    var to: seq<Address> := [];
    var addTo: seq<Address> := [];
    var primary, wired := false, false;
    var i := 0;
    assert codes[..0] == [];
    while i < |addrs|
      invariant 0 <= i <= |addrs|
      invariant whole == DeliverFrom(w, h, hash, addrs, numTo, i, Progress(codes[..i], to, addTo, primary, wired))
    {
      ghost var p := Progress(codes[..i], to, addTo, primary, wired);
      ghost var step := Deliver(w, h, hash, addrs[i], i, i < numTo, p);
      var code := ValidateRecipient(w, h, addrs[i], hash);
      if code.None? { return None; }
      if code.value == ACCEPT && !w.dirOk(i) { return None; }
      if code.value != ACCEPT {
        codes[i] := code.value;
      } else if !w.copyOk(i) {
        codes[i] := USER_UNDISCLOSED;
      } else {
        codes[i] := ACCEPT;
        if i < numTo {
          to := to + [addrs[i]];
        } else {
          addTo := addTo + [addrs[i]];
        }
        if !primary {
          if !wired {
            if !w.preserved { return None; }
            wired := true;
          }
          primary := true;
          if !w.persistOk(i) {
            codes[i] := USER_UNDISCLOSED;
            primary := false;
            to := [];
            addTo := [];
          }
        }
      }
      assert codes[..i + 1] == p.codes + [codes[i]];
      assert step == Some(Progress(codes[..i + 1], to, addTo, primary, wired));
      i := i + 1;
    }
    assert codes[..i] == codes[..];
    r := Some(Progress(codes[..], to, addTo, primary, wired));
  }

  /** storeAcceptedMessage: a failed store turns acceptances into undisclosed. */
  method StoreAccepted(w: World, p: Progress, codes: array<byte>) returns (f: Finish)
    requires codes[..] == p.codes
    modifies codes
    ensures f == Settle(w, p) && codes[..] == f.codes
  {
    if |p.to| == 0 && |p.addTo| == 0 { return Finish(codes[..], false, []); }
    if !w.stored {
      for i := 0 to codes.Length
        invariant forall j :: 0 <= j < i ==> codes[j] == Downgraded(p.codes)[j]
        invariant forall j :: i <= j < codes.Length ==> codes[j] == p.codes[j]
      {
        if codes[i] == ACCEPT { codes[i] := USER_UNDISCLOSED; }
      }
      assert codes[..] == Downgraded(p.codes);
      return Finish(codes[..], false, []);
    }
    f := Finish(codes[..], true, p.to + p.addTo);
  }

  /** downloadMessage */
  method DownloadMessage(c: Conn, w: World, h: Header, skip: bool, answer: Option<bytes>) returns (f: Option<Finish>)
    requires c.env == w.env
    modifies c
    ensures match Download(w, h, skip, answer, old(c.input))
      case None => f == None && c.written == old(c.written)
      case Some((finish, rest)) => f == Some(finish) && c.input == rest && c.written == old(c.written) + finish.codes
  {
    var addrs, numTo := CollectLocal(w.env, h, w.env.domain);
    if |addrs| == 0 { return None; }
    var codes := new byte[|addrs|];
    var wire := PrepareMessageData(c, w, h, skip);
    if wire.None? { return None; }
    var hash := ComputeMessageHash(w.cr, wire.value);
    if hash.None? { return None; }
    if answer.Some? && answer.value != hash.value { return None; }
    var p := DeliverAll(w, h, Canonical(h, hash.value), addrs, numTo, codes);
    if p.None? { return None; }
    DeliverFromLength(w, h, Canonical(h, hash.value), addrs, numTo, 0, Progress([], [], [], false, false));
    var finish := StoreAccepted(w, p.value, codes);
    c.written := c.written + codes[..];
    f := Some(finish);
  }

  lemma {:induction false} DeliverFromLength(w: World, h: Header, hash: bytes, addrs: seq<Address>, numTo: nat,
                                             i: nat, p: Progress)
    requires i <= |addrs| && |p.codes| == i
    ensures var q := DeliverFrom(w, h, hash, addrs, numTo, i, p); q.Some? ==> |q.value.codes| == |addrs|
    decreases |addrs| - i
  {
    if i < |addrs| {
      var q := Deliver(w, h, hash, addrs[i], i, i < numTo, p);
      if q.Some? { DeliverFromLength(w, h, hash, addrs, numTo, i + 1, q.value); }
    }
  }

  /** The challenge, the duplicate check after it, and the initial code. */
  method ChooseOpening(w: World, h: Header, initial: byte) returns (o: Opening)
    ensures o == Open(w, h, initial)
  {
    var wanted := ShouldChallenge(w, h);
    if wanted.None? { return Abort; }
    var answer: Option<bytes> := None;
    if wanted.value {
      if w.challengeAnswer.None? { return Abort; }
      answer := w.challengeAnswer;
    }
    var all := false;
    if answer.Some? && initial != ACCEPT_ADD_TO {
      var addrs, _ := CollectLocal(w.env, h, w.env.domain);
      var hash := answer.value;
      if h.flags.hasAddTo { hash := h.pid; }
      var received := AllLocalReceived(w, hash, addrs);
      if received.None? { return Send(UNDISCLOSED, answer); }
      all := received.value;
    }
    var code := Resolve(initial, answer.Some?, all);
    if code == ACCEPT_ADD_TO && !w.headerStored { return Send(UNDISCLOSED, answer); }
    o := Send(code, answer);
  }

  /** handleConn, after the header is read. */
  method Respond(c: Conn, w: World, h: Header) returns (f: Option<Finish>)
    requires c.env == w.env
    modifies c
    ensures var run := Converse(w, h, old(c.input));
      f == run.finish && c.written == old(c.written) + run.written && (f.Some? ==> c.input == run.unread)
  {
    var v := Admit(w, h);
    if v.Drop? { return None; }
    if v.Reply? {
      c.SendCode(v.code);
      return None;
    }
    var o := ChooseOpening(w, h, v.initial);
    if o.Abort? { return None; }
    c.SendCode(o.code);
    if o.code != CONTINUE && o.code != SKIP_DATA { return None; }
    f := DownloadMessage(c, w, h, o.code == SKIP_DATA, o.answer);
    if f.Some? { Assoc(old(c.written), [o.code], f.value.codes); }
  }

  /** handleConn on a fresh message connection. */
  method HandleConn(c: Conn, w: World) returns (f: Option<Finish>)
    requires c.env == w.env && c.written == []
    modifies c
    ensures var run := Serve(w, old(c.input));
      f == run.finish && c.written == run.written && (f.Some? ==> c.input == run.unread)
  {
    var h := c.NextHeader();
    if h.None? { return None; }
    f := Respond(c, w, h.value);
    assert [] + Converse(w, h.value, ReadHeader(w.env, old(c.input)).rest).written ==
           Converse(w, h.value, ReadHeader(w.env, old(c.input)).rest).written;
  }
}
