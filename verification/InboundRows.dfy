/** How a received message's recipient rows record what this host answered
    (cmd/fmsgd/host.go and cmd/fmsgd/store.go). */
module InboundRows {
  import opened Prelude
  import opened Header
  import opened Parser
  import opened Codec
  import opened Receiver
  import opened ReceiverProofs
  import Delivery

  const NOT_OUR_DELIVERY: int := Delivery.NOT_OURS

  /** A stored row: delivered, or undelivered with a code. */
  datatype RowState = Delivered | Undelivered(code: int)

  /** The position of the last local entry with the address's key, or -1. */
  function LastEntry(env: Env, addrs: seq<Address>, key: bytes): (i: int)
    ensures -1 <= i < |addrs|
    ensures i >= 0 ==> Key(env, addrs[i]) == key
    ensures forall j :: i < j < |addrs| ==> Key(env, addrs[j]) != key
  {
    if addrs == [] then -1
    else if Key(env, addrs[|addrs| - 1]) == key then |addrs| - 1
    else LastEntry(env, addrs[..|addrs| - 1], key)
  }

  /** The outcome map of downloadMessage: a later entry overwrites an earlier one. */
  method BuildOutcome(env: Env, addrs: seq<Address>, codes: bytes) returns (m: map<bytes, byte>)
    requires |codes| == |addrs|
    ensures forall key :: key in m <==> LastEntry(env, addrs, key) >= 0
    ensures forall key :: key in m ==> m[key] == codes[LastEntry(env, addrs, key)]
  {
    m := map[];
    for i := 0 to |addrs|
      invariant forall key :: key in m <==> LastEntry(env, addrs[..i], key) >= 0
      invariant forall key :: key in m ==> m[key] == codes[LastEntry(env, addrs[..i], key)]
    {
      assert addrs[..i + 1][..i] == addrs[..i];
      assert forall key ::
        LastEntry(env, addrs[..i + 1], key) ==
        (if Key(env, addrs[i]) == key then i else LastEntry(env, addrs[..i], key));
      m := m[Key(env, addrs[i]) := codes[i]];
    }
    assert addrs[..|addrs|] == addrs;
  }

  /** The outcome map of a download, as BuildOutcome leaves it. */
  ghost predicate IsOutcome(env: Env, h: Header, codes: bytes, outcome: map<bytes, byte>) {
    var locals := LocalRecipients(env, h, env.domain);
    |codes| == |locals| && (forall key :: key in outcome <==> LastEntry(env, locals, key) >= 0) &&
    forall key :: key in outcome ==> outcome[key] == codes[LastEntry(env, locals, key)]
  }

  /** inboundRecipientRow, used when the message is inserted. */
  function InsertedRow(env: Env, a: Address, outcome: map<bytes, byte>): RowState {
    if Key(env, a) !in outcome then Undelivered(NOT_OUR_DELIVERY)
    else if outcome[Key(env, a)] == ACCEPT then Delivered
    else Undelivered(outcome[Key(env, a)])
  }

  /** The row attachAddToRecipients would insert, when the message is already held: it
      goes by the domain alone. */
  function AttachedRow(env: Env, a: Address): RowState {
    if a.domain == env.domain then Delivered else Undelivered(NOT_OUR_DELIVERY)
  }

  lemma {:induction false} InLocal(env: Env, addrs: seq<Address>, domain: bytes, a: Address)
    requires a in addrs && OnDomain(env, a, domain)
    ensures a in OnDomainOf(env, addrs, domain)
  {
    if a != addrs[|addrs| - 1] {
      assert a in addrs[..|addrs| - 1];
      InLocal(env, addrs[..|addrs| - 1], domain, a);
    }
  }

  /** On insertion every row says what this host answered: delivered exactly when
      the last local entry of its address was accepted, the code of that entry
      otherwise, and not our delivery exactly when no local entry has its address. */
  lemma {:induction false} InsertedRowsAreFaithful(env: Env, h: Header, codes: bytes, outcome: map<bytes, byte>,
                                                   a: Address)
    requires IsOutcome(env, h, codes, outcome) && a in h.to + h.addTo
    ensures var locals := LocalRecipients(env, h, env.domain);
      var last := LastEntry(env, locals, Key(env, a));
      (OnDomain(env, a, env.domain) ==> last >= 0) &&
      InsertedRow(env, a, outcome) ==
        if last < 0 then Undelivered(NOT_OUR_DELIVERY)
        else if codes[last] == ACCEPT then Delivered else Undelivered(codes[last])
  {
    if OnDomain(env, a, env.domain) {
      var locals := LocalRecipients(env, h, env.domain);
      if a in h.to {
        InLocal(env, h.to, env.domain, a);
      } else {
        InLocal(env, h.addTo, env.domain, a);
      }
      assert a in locals;
      var i :| 0 <= i < |locals| && locals[i] == a;
    }
  }

  /** On attachment the row of an added recipient agrees with the answer exactly when,
      for this host's domain as spelled in its settings, the answer was an
      acceptance, and otherwise the address has no local entry: a rejected
      recipient is recorded as delivered, and one whose domain is spelled in
      another case as not ours. */
  lemma {:induction false} AttachedRowAgreesIff(env: Env, h: Header, codes: bytes, outcome: map<bytes, byte>,
                                                a: Address)
    requires IsOutcome(env, h, codes, outcome) && a in h.addTo
    ensures var last := LastEntry(env, LocalRecipients(env, h, env.domain), Key(env, a));
      AttachedRow(env, a) == InsertedRow(env, a, outcome) <==>
        if a.domain == env.domain then last >= 0 && codes[last] == ACCEPT else last < 0
  {
    InsertedRowsAreFaithful(env, h, codes, outcome, a);
  }

  /** In an add-to download, a user unknown here is answered 100, and one who has the
      message already 103. */
  lemma {:induction false} AddToAnswers(w: World, h: Header, skip: bool, answer: Option<bytes>, s: bytes, i: nat)
    requires Download(w, h, skip, answer, s).Some? && h.flags.hasAddTo
    requires i < |LocalRecipients(w.env, h, w.env.domain)|
    ensures var codes := Download(w, h, skip, answer, s).value.0.codes;
      var a := LocalRecipients(w.env, h, w.env.domain)[i];
      i < |codes| &&
      (w.received(h.pid, a) == Some(true) ==> codes[i] == USER_DUPLICATE) &&
      (w.received(h.pid, a) == Some(false) && w.detail(a).Missing? ==> codes[i] == USER_UNKNOWN)
  {
    DownloadCodes(w, h, skip, answer, s);
    RecipientCodeMeans(w, h, LocalRecipients(w.env, h, w.env.domain)[i], h.pid);
  }

  /** The i-th local entry is one of the added. */
  ghost predicate AddedEntry(w: World, h: Header, i: nat) {
    |OnDomainOf(w.env, h.to, w.env.domain)| <= i < |LocalRecipients(w.env, h, w.env.domain)|
  }

  lemma {:induction false} AddedEntryHas(w: World, h: Header, i: nat, batch: nat, before: AddedRows)
    requires AddedEntry(w, h, i) && Distinct(w.env, h.addTo)
    requires (batch, AddressText(LocalRecipients(w.env, h, w.env.domain)[i])) !in before
    ensures var a := LocalRecipients(w.env, h, w.env.domain)[i];
      var rows := Inserted(w.env, h.addTo, batch, before);
      (batch, AddressText(a)) in rows && rows[(batch, AddressText(a))] == AttachedRow(w.env, a)
  {
    var j := EntryOf(w.env, h.addTo, w.env.domain, i - |OnDomainOf(w.env, h.to, w.env.domain)|);
    InsertedHas(w.env, h.addTo, batch, before, j);
  }

  /** The row attached for the i-th local entry says delivered though it was answered
      100. */
  ghost predicate RecordedWrongly(w: World, h: Header, codes: bytes, i: nat, batch: nat, before: AddedRows)
    requires i < |LocalRecipients(w.env, h, w.env.domain)|
  {
    var k := (batch, AddressText(LocalRecipients(w.env, h, w.env.domain)[i]));
    var rows := Inserted(w.env, h.addTo, batch, before);
    i < |codes| && codes[i] == USER_UNKNOWN && k in rows && rows[k] == Delivered
  }

  /** A user unknown here, added to a message this host holds, in a delivery that is
      committed because someone else is accepted: the download answers 100, and
      the row attached for the user says delivered. */
  lemma {:induction false} UnknownRecordedDelivered(w: World, h: Header, skip: bool, answer: Option<bytes>, s: bytes,
                                                    i: nat, batch: nat, before: AddedRows)
    requires Download(w, h, skip, answer, s).Some? && Download(w, h, skip, answer, s).value.0.committed
    requires h.flags.hasAddTo && w.byHash(h.pid).Found? && Distinct(w.env, h.addTo) && AddedEntry(w, h, i)
    requires var a := LocalRecipients(w.env, h, w.env.domain)[i];
      w.detail(a).Missing? && w.received(h.pid, a) == Some(false) && a.domain == w.env.domain &&
      (batch, AddressText(a)) !in before
    ensures RecordedWrongly(w, h, Download(w, h, skip, answer, s).value.0.codes, i, batch, before)
  {
    AddToAnswers(w, h, skip, answer, s, i);
    AddedEntryHas(w, h, i, batch, before);
  }

  /** Where an entry on the domain is in the whole list. */
  lemma {:induction false} EntryOf(env: Env, addrs: seq<Address>, domain: bytes, i: nat) returns (j: nat)
    requires i < |OnDomainOf(env, addrs, domain)|
    ensures j < |addrs| && addrs[j] == OnDomainOf(env, addrs, domain)[i]
  {
    var n := |addrs| - 1;
    if i < |OnDomainOf(env, addrs[..n], domain)| {
      j := EntryOf(env, addrs[..n], domain, i);
    } else {
      j := n;
    }
  }

  /** The row that says what an entry was answered. */
  function RowFor(code: byte): RowState { if code == ACCEPT then Delivered else Undelivered(code) }

  /** A to row of a message already held is not touched (RecipientRows.Attach). When the
      host knows of every delivered row that its user has the message, such a row
      says what its entry is answered now exactly when it already recorded that
      very rejection: a delivered row never agrees, as its user is answered 103,
      and nor does an earlier rejection when the user is now accepted. */
  lemma {:induction false} EarlierRowAgreesIff(w: World, h: Header, skip: bool, answer: Option<bytes>, s: bytes, i: nat,
                                               earlier: RowState)
    requires Download(w, h, skip, answer, s).Some? && h.flags.hasAddTo
    requires i < |OnDomainOf(w.env, h.to, w.env.domain)|
    requires earlier == Delivered ==> w.received(h.pid, LocalRecipients(w.env, h, w.env.domain)[i]) == Some(true)
    ensures var codes := Download(w, h, skip, answer, s).value.0.codes;
      i < |codes| &&
      (earlier == RowFor(codes[i]) <==> earlier == Undelivered(codes[i]) && codes[i] != ACCEPT) &&
      (earlier == Delivered ==> codes[i] == USER_DUPLICATE && earlier != RowFor(codes[i]))
  {
    AddToAnswers(w, h, skip, answer, s, i);
  }

  type AddedRows = map<(nat, bytes), RowState>

  /** Inserting a row of the batch for each added entry, unless it has one. */
  function Inserted(env: Env, addTo: seq<Address>, batch: nat, before: AddedRows): AddedRows {
    if addTo == [] then before
    else
      var rows, a := Inserted(env, addTo[..|addTo| - 1], batch, before), addTo[|addTo| - 1];
      if (batch, AddressText(a)) in rows then rows else rows[(batch, AddressText(a)) := AttachedRow(env, a)]
  }

  /** Rows of other batches stay, and there are no rows but for the added. */
  lemma {:induction false} InsertedKeys(env: Env, addTo: seq<Address>, batch: nat, before: AddedRows, k: (nat, bytes))
    ensures k in before ==>
      k in Inserted(env, addTo, batch, before) && Inserted(env, addTo, batch, before)[k] == before[k]
    ensures k in Inserted(env, addTo, batch, before) ==>
      k in before || (k.0 == batch && exists a :: a in addTo && k.1 == AddressText(a))
  {
    if addTo != [] {
      var init := addTo[..|addTo| - 1];
      InsertedKeys(env, init, batch, before, k);
      assert forall a :: a in init ==> a in addTo;
      assert addTo[|addTo| - 1] in addTo;
    }
  }

  /** Every added entry has its row, when the entries are distinct and the batch is new. */
  lemma {:induction false} InsertedHas(env: Env, addTo: seq<Address>, batch: nat, before: AddedRows, i: nat)
    requires Distinct(env, addTo) && i < |addTo| && (batch, AddressText(addTo[i])) !in before
    ensures var rows := Inserted(env, addTo, batch, before);
      (batch, AddressText(addTo[i])) in rows && rows[(batch, AddressText(addTo[i]))] == AttachedRow(env, addTo[i])
  {
    var n := |addTo| - 1;
    var k := (batch, AddressText(addTo[i]));
    if i < n {
      InsertedHas(env, addTo[..n], batch, before, i);
      assert Key(env, addTo[i]) != Key(env, addTo[n]);
    } else {
      InsertedKeys(env, addTo[..n], batch, before, k);
      forall a | a in addTo[..n] ensures AddressText(a) != AddressText(addTo[i]) { OtherText(env, addTo, i, a); }
    }
  }

  lemma {:induction false} OtherText(env: Env, addTo: seq<Address>, i: nat, b: Address)
    requires Distinct(env, addTo) && i < |addTo| && b in addTo[..i]
    ensures AddressText(b) != AddressText(addTo[i])
  {
    var j :| 0 <= j < i && addTo[j] == b;
    assert Key(env, addTo[j]) != Key(env, addTo[i]);
  }

  /** The recipient rows of one stored message: msg_to, and msg_add_to by batch. */
  class RecipientRows {
    const terminal: bool
    var to: map<bytes, RowState>
    var added: AddedRows

    constructor (terminal: bool, to: map<bytes, RowState>)
      ensures this.terminal == terminal && this.to == to && this.added == map[]
    {
      this.terminal, this.to, this.added := terminal, to, map[];
    }

    /** attachAddToRecipients on a sent message, one transaction. A to entry that has a
        row is left alone (on conflict do nothing); one that has none may not
        be inserted any more (protect_msg_parts); a terminal message takes no
        batch (prevent_add_to_terminal_msg); either way nothing is attached.
        Otherwise every added entry gets a row of the new batch. */
    method Attach(env: Env, h: Header, batch: nat) returns (ok: bool)
      modifies this
      ensures to == old(to)
      ensures ok <==> (forall a :: a in h.to ==> AddressText(a) in old(to)) && (h.addTo == [] || !terminal)
      ensures added == if ok then Inserted(env, h.addTo, batch, old(added)) else old(added)
    {
      for i := 0 to |h.to|
        invariant to == old(to) && added == old(added)
        invariant forall j :: 0 <= j < i ==> AddressText(h.to[j]) in to
      {
        if AddressText(h.to[i]) !in to { return false; }
      }
      if |h.addTo| == 0 { return true; }
      if terminal { return false; }
      for i := 0 to |h.addTo|
        invariant to == old(to)
        invariant added == Inserted(env, h.addTo[..i], batch, old(added))
      {
        assert h.addTo[..i + 1][..i] == h.addTo[..i];
        if (batch, AddressText(h.addTo[i])) !in added {
          added := added[(batch, AddressText(h.addTo[i])) := AttachedRow(env, h.addTo[i])];
        }
      }
      assert h.addTo[..|h.addTo|] == h.addTo;
      ok := true;
    }
  }
}
