/** What a 200 on the wire says, and when it is sent: if and only if every check of the
    receiving host, from the header to the store, was passed. */
module Acceptance {
  import opened Prelude
  import opened Header
  import opened Parser
  import opened Identity
  import opened Receiver
  import opened ReceiverProofs
  import opened Admission

  // ---- one entry of a download ----

  /** The user is known, takes new messages, does not have this one, and is within every
      limit. */
  ghost predicate MayReceive(w: World, h: Header, a: Address, hash: bytes) {
    CouldReceive(w, a, hash) && w.detail(a).value.acceptingNew && WithinLimits(w.detail(a).value, h)
  }

  /** The user may receive the message, and its copy was made. */
  ghost predicate Copied(w: World, h: Header, hash: bytes, addrs: seq<Address>, i: nat)
    requires i < |addrs|
  {
    MayReceive(w, h, addrs[i], hash) && w.copyOk(i)
  }

  /** The entry was copied, and the attachments were kept for it or an earlier one. */
  ghost predicate Kept(w: World, h: Header, hash: bytes, addrs: seq<Address>, i: nat)
    requires i < |addrs|
  {
    Copied(w, h, hash, addrs, i) && exists j :: 0 <= j <= i && Copied(w, h, hash, addrs, j) && w.persistOk(j)
  }

  /** Nothing about the entry abandons the connection: its lookups succeed, and if it may
      receive, its directory is there and the wire form can be preserved. */
  ghost predicate Answerable(w: World, h: Header, hash: bytes, addrs: seq<Address>, i: nat)
    requires i < |addrs|
  {
    var a := addrs[i];
    w.received(hash, a) != None && (w.received(hash, a) == Some(false) ==> !w.detail(a).Failed?) &&
    (MayReceive(w, h, a, hash) ==> w.dirOk(i) && (w.copyOk(i) ==> w.preserved))
  }

  lemma {:induction false} DeliverIff(w: World, h: Header, hash: bytes, addrs: seq<Address>, i: nat, isTo: bool,
                                      p: Progress)
    requires i < |addrs| && (p.primary || p.wired ==> w.preserved)
    ensures var q := Deliver(w, h, hash, addrs[i], i, isTo, p);
      (q.Some? <==> Answerable(w, h, hash, addrs, i)) && (q.Some? && (q.value.primary || q.value.wired) ==> w.preserved)
  {
    RecipientCodeMeans(w, h, addrs[i], hash);
  }

  /** The loop runs to its end exactly when every entry can be answered. */
  lemma {:induction false} LoopEndsIff(w: World, h: Header, hash: bytes, addrs: seq<Address>, numTo: nat, i: nat,
                                       p: Progress)
    requires i <= |addrs| && (p.primary || p.wired ==> w.preserved)
    ensures DeliverFrom(w, h, hash, addrs, numTo, i, p).Some? <==>
            forall j :: i <= j < |addrs| ==> Answerable(w, h, hash, addrs, j)
    decreases |addrs| - i
  {
    if i < |addrs| {
      DeliverIff(w, h, hash, addrs, i, i < numTo, p);
      var q := Deliver(w, h, hash, addrs[i], i, i < numTo, p);
      if q.Some? { LoopEndsIff(w, h, hash, addrs, numTo, i + 1, q.value); }
    }
  }

  /** The codes before the store is asked. */
  ghost predicate AreFinal(w: World, h: Header, hash: bytes, addrs: seq<Address>, codes: bytes) {
    |codes| == |addrs| && forall j :: 0 <= j < |codes| ==> codes[j] == FinalCode(w, h, hash, addrs[j], j, codes[..j])
  }

  lemma {:induction false} FinalIff(w: World, h: Header, hash: bytes, addrs: seq<Address>, codes: bytes, i: nat)
    requires AreFinal(w, h, hash, addrs, codes) && i < |addrs|
    ensures codes[i] == ACCEPT <==> Kept(w, h, hash, addrs, i)
  {
    RecipientCodeMeans(w, h, addrs[i], hash);
    assert codes[i] == FinalCode(w, h, hash, addrs[i], i, codes[..i]);
    if ACCEPT in codes[..i] {
      var j :| 0 <= j < i && codes[j] == ACCEPT;
      FinalIff(w, h, hash, addrs, codes, j);
    }
    if Kept(w, h, hash, addrs, i) {
      var j :| 0 <= j <= i && Copied(w, h, hash, addrs, j) && w.persistOk(j);
      if j < i {
        FinalIff(w, h, hash, addrs, codes, j);
        assert codes[..i][j] == ACCEPT;
      }
    }
  }

  /** The code an entry is sent, for each code exactly when. */
  ghost predicate CodeExplained(w: World, h: Header, hash: bytes, addrs: seq<Address>, i: nat, code: byte)
    requires i < |addrs|
  {
    var a := addrs[i];
    (code == ACCEPT <==> Kept(w, h, hash, addrs, i) && w.stored) &&
    (code == USER_UNDISCLOSED <==> MayReceive(w, h, a, hash) && !(Kept(w, h, hash, addrs, i) && w.stored)) &&
    (code == USER_DUPLICATE <==> w.received(hash, a) == Some(true)) &&
    (code == USER_UNKNOWN <==> w.received(hash, a) == Some(false) && w.detail(a).Missing?) &&
    (code == USER_NOT_ACCEPTING <==> CouldReceive(w, a, hash) && !w.detail(a).value.acceptingNew) &&
    (code == USER_FULL <==>
      CouldReceive(w, a, hash) && w.detail(a).value.acceptingNew && !WithinLimits(w.detail(a).value, h))
  }

  /** What is sent of final codes: all as they are, or without the acceptances when the
      store failed. */
  lemma {:induction false} SentIff(w: World, h: Header, hash: bytes, addrs: seq<Address>, codes: bytes, i: nat)
    requires AreFinal(w, h, hash, addrs, codes) && i < |addrs| && Answerable(w, h, hash, addrs, i)
    ensures var sent := if ACCEPT in codes && !w.stored then Downgraded(codes) else codes;
      CodeExplained(w, h, hash, addrs, i, sent[i])
  {
    FinalIff(w, h, hash, addrs, codes, i);
    RecipientCodeMeans(w, h, addrs[i], hash);
    assert codes[i] == FinalCode(w, h, hash, addrs[i], i, codes[..i]);
    assert codes[i] == ACCEPT ==> ACCEPT in codes;
  }

  // ---- a download ----

  /** The payload is there and its hash is the challenge answer, if there is one. */
  ghost predicate Genuine(w: World, h: Header, skip: bool, answer: Option<bytes>, s: bytes) {
    var p := Payload(w, h, skip, s);
    p.Some? && MessageHash(w.cr, p.value.0).Some? &&
    (answer.Some? ==> answer == MessageHash(w.cr, p.value.0))
  }

  /** The hash recipients are looked up by in a genuine download. */
  ghost function RecipientHash(w: World, h: Header, skip: bool, s: bytes): bytes
    requires Genuine(w, h, skip, None, s)
  {
    LookupHash(h, MessageHash(w.cr, Payload(w, h, skip, s).value.0).value)
  }

  ghost predicate AllAnswerable(w: World, h: Header, hash: bytes, addrs: seq<Address>) {
    forall j :: 0 <= j < |addrs| ==> Answerable(w, h, hash, addrs, j)
  }

  lemma {:induction false} AllAnsweredIff(w: World, h: Header, hash: bytes, addrs: seq<Address>, numTo: nat)
    ensures DeliverFrom(w, h, hash, addrs, numTo, 0, Progress([], [], [], false, false)).Some? <==>
            AllAnswerable(w, h, hash, addrs)
  {
    LoopEndsIff(w, h, hash, addrs, numTo, 0, Progress([], [], [], false, false));
  }

  /** Someone here is addressed, the data is genuine and every local entry can be
      answered. */
  ghost predicate CanFinish(w: World, h: Header, skip: bool, answer: Option<bytes>, s: bytes) {
    LocalRecipients(w.env, h, w.env.domain) != [] && Genuine(w, h, skip, answer, s) &&
    AllAnswerable(w, h, RecipientHash(w, h, skip, s), LocalRecipients(w.env, h, w.env.domain))
  }

  /** A download finishes exactly when someone here is addressed, the data is genuine and
      every local entry can be answered. */
  lemma {:induction false} FinishesIff(w: World, h: Header, skip: bool, answer: Option<bytes>, s: bytes)
    ensures Download(w, h, skip, answer, s).Some? <==> CanFinish(w, h, skip, answer, s)
  {
    if Genuine(w, h, skip, answer, s) {
      AllAnsweredIff(w, h, RecipientHash(w, h, skip, s), LocalRecipients(w.env, h, w.env.domain),
                     |OnDomainOf(w.env, h.to, w.env.domain)|);
    }
  }

  /** Every code a finished download sends, exactly. */
  lemma {:induction false} CodesIff(w: World, h: Header, skip: bool, answer: Option<bytes>, s: bytes, i: nat)
    requires Download(w, h, skip, answer, s).Some? && i < |LocalRecipients(w.env, h, w.env.domain)|
    ensures Genuine(w, h, skip, answer, s) && i < |Download(w, h, skip, answer, s).value.0.codes|
    ensures CodeExplained(w, h, RecipientHash(w, h, skip, s), LocalRecipients(w.env, h, w.env.domain), i,
                          Download(w, h, skip, answer, s).value.0.codes[i])
  {
    FinishesIff(w, h, skip, answer, s);
    DownloadCodes(w, h, skip, answer, s);
    var hash, locals := RecipientHash(w, h, skip, s), LocalRecipients(w.env, h, w.env.domain);
    var f := Download(w, h, skip, answer, s).value.0;
    var codes: bytes :| |codes| == |locals| &&
      (forall j :: 0 <= j < |codes| ==> codes[j] == FinalCode(w, h, hash, locals[j], j, codes[..j])) &&
      f.codes == if ACCEPT in codes && !w.stored then Downgraded(codes) else codes;
    SentIff(w, h, hash, locals, codes, i);
  }

  // ---- a run ----

  /** The header is admitted with 64 or 65, and the challenge, if any, is passed and shows
      no duplicate. */
  ghost predicate Opened(w: World, h: Header, code: byte, answer: Option<bytes>) {
    Eligible(w, h) &&
    (if code == SKIP_DATA then IsAddTo(h) && BatchIs(w, h, Some(false)) && AnyHere(w, h.addTo)
     else
       code == CONTINUE && (IsReply(h) ==> ReplyAllowed(w, h)) &&
       (IsAddTo(h) ==> NotHeld(w, h) && (AnyHere(w, h.to) || AnyHere(w, h.addTo)))) &&
    (if answer.None? then TakesOnTrust(w, h)
     else
       WantsProof(w, h) && answer == w.challengeAnswer &&
       !AllHave(w, LookupHash(h, answer.value), LocalRecipients(w.env, h, w.env.domain)) &&
       !LookupFails(w, LookupHash(h, answer.value), LocalRecipients(w.env, h, w.env.domain)))
  }

  lemma {:induction false} OpenedIff(w: World, h: Header, code: byte, answer: Option<bytes>)
    requires code == CONTINUE || code == SKIP_DATA
    ensures Opened(w, h, code, answer) <==> Admit(w, h) == Proceed(code) && Open(w, h, code) == Send(code, answer)
  {
    AdmittedIff(w, h);
    ChallengedIff(w, h, code);
    if Open(w, h, code).Send? { OpeningCodeIff(w, h, code); }
  }

  /** What a finished connection is made of. */
  lemma {:induction false} ConverseIff(w: World, h: Header, rest: bytes, code: byte, answer: Option<bytes>)
    requires code == CONTINUE || code == SKIP_DATA
    ensures Opened(w, h, code, answer) && Download(w, h, code == SKIP_DATA, answer, rest).Some? ==>
      var d := Download(w, h, code == SKIP_DATA, answer, rest).value;
      Converse(w, h, rest) == Run([code] + d.0.codes, d.1, Some(d.0))
  {
    OpenedIff(w, h, code, answer);
  }

  lemma {:induction false} FinishedOpened(w: World, h: Header, rest: bytes) returns (code: byte, answer: Option<bytes>)
    requires Converse(w, h, rest).finish.Some?
    ensures (code == CONTINUE || code == SKIP_DATA) && Opened(w, h, code, answer)
    ensures Download(w, h, code == SKIP_DATA, answer, rest).Some?
  {
    AdmitCodes(w, h);
    code := Admit(w, h).initial;
    OpenCodes(w, h, code);
    answer := Open(w, h, code).answer;
    OpenedIff(w, h, code, answer);
  }

  /** The i-th entry was accepted in the run. */
  ghost predicate AcceptedIn(run: Run, i: nat) {
    run.finish.Some? && i < |run.finish.value.codes| && run.finish.value.codes[i] == ACCEPT
  }

  /** Every check was passed for the i-th entry: the connection opened, the download could
      finish, and the entry was kept and committed. */
  ghost predicate Earned(w: World, h: Header, rest: bytes, code: byte, answer: Option<bytes>, i: nat) {
    (code == CONTINUE || code == SKIP_DATA) && Opened(w, h, code, answer) &&
    CanFinish(w, h, code == SKIP_DATA, answer, rest) && EntryKept(w, h, code == SKIP_DATA, rest, i)
  }

  ghost predicate EntryKept(w: World, h: Header, skip: bool, rest: bytes, i: nat)
    requires Genuine(w, h, skip, None, rest)
  {
    var locals := LocalRecipients(w.env, h, w.env.domain);
    w.stored && i < |locals| && Kept(w, h, RecipientHash(w, h, skip, rest), locals, i)
  }

  lemma {:induction false} EarnedIff(w: World, h: Header, rest: bytes, code: byte, answer: Option<bytes>, i: nat)
    requires (code == CONTINUE || code == SKIP_DATA) && Opened(w, h, code, answer)
    ensures var d := Download(w, h, code == SKIP_DATA, answer, rest);
      Earned(w, h, rest, code, answer, i) <==> d.Some? && i < |d.value.0.codes| && d.value.0.codes[i] == ACCEPT
  {
    FinishesIff(w, h, code == SKIP_DATA, answer, rest);
    DownloadSettles(w, h, code == SKIP_DATA, answer, rest);
    if Download(w, h, code == SKIP_DATA, answer, rest).Some? && i < |LocalRecipients(w.env, h, w.env.domain)| {
      CodesIff(w, h, code == SKIP_DATA, answer, rest, i);
    }
  }

  lemma {:induction false} ConverseAccepts(w: World, h: Header, rest: bytes, i: nat)
    ensures AcceptedIn(Converse(w, h, rest), i) <==>
            exists code: byte, answer: Option<bytes> :: Earned(w, h, rest, code, answer, i)
  {
    if AcceptedIn(Converse(w, h, rest), i) {
      var code, answer := FinishedOpened(w, h, rest);
      ConverseIff(w, h, rest, code, answer);
      EarnedIff(w, h, rest, code, answer, i);
    }
    forall code: byte, answer: Option<bytes> | Earned(w, h, rest, code, answer, i)
      ensures AcceptedIn(Converse(w, h, rest), i)
    {
      EarnedIff(w, h, rest, code, answer, i);
      ConverseIff(w, h, rest, code, answer);
    }
  }

  /** On every input: an entry is answered 200 if and only if a header was read whose
      sender, parent and adder passed every check, with a passed challenge where
      one is wanted, genuine data, answerable entries, a user who may receive it,
      copies and attachments kept, and the store committed. */
  lemma {:induction false} AcceptedIff(w: World, s: bytes, i: nat)
    ensures AcceptedIn(Serve(w, s), i) <==>
      var got := ReadHeader(w.env, s);
      got.Got? && exists code: byte, answer: Option<bytes> :: Earned(w, got.value, got.rest, code, answer, i)
  {
    var got := ReadHeader(w.env, s);
    if got.Got? { ConverseAccepts(w, got.value, got.rest, i); }
  }
}
