/** The recipient tables of one message, updated in place as deliverUnit does
    (cmd/fmsgd/sender.go). */
module DeliveryTables {
  import opened Prelude
  import opened Delivery
  import opened DeliveryRuns

  /** What a unit makes of one row, exit by exit. */
  lemma {:induction false} WritesByCase(p: Post, u: Unit, locked: set<RowId>, net: Network, id: RowId, r: Row, at: real)
    ensures var n := |Recipients(p.fold, p.mail, u)|;
      var common := CommonOutcome(u.AddTo?, n, net);
      RecordAll(r, at, Writes(p.fold, p.mail, u, locked, net, id)) ==
        if id.Notice? then (if id in locked then Record(r, at, NotifyOutcome(u.AddTo?, n, net)) else r)
        else if !InTable(u.AddTo?, id) then r
        else if common.Some? then (if id.addr in Addresses(locked) then Record(r, at, common.value) else r)
        else RecordAll(r, at, CodesFor(p.fold, Recipients(p.fold, p.mail, u), Folded(p.fold, Addresses(locked)),
                                       net.codes.value, id.addr))
  {
    var n := |Recipients(p.fold, p.mail, u)|;
    RecordOne(r, at, NotifyOutcome(u.AddTo?, n, net));
  }

  class Tables {
    var rows: Rows

    constructor (rows: Rows)
      ensures this.rows == rows
    {
      this.rows := rows;
    }

    /** lockPendingRecipients and lockPendingNotify. The queries lock the pending rows of
        the unit's table and batch that no other unit holds, in whatever order;
        of these the unit goes on with the ones on its domain. */
    method LockPending(p: Post, ghost open: map<nat, Open>, taken: set<RowId>, u: Unit, now: real)
      returns (held: set<RowId>, locked: set<RowId>)
      requires forall id :: id in taken <==> Held(System(rows, open), id)
      requires forall id :: id in rows ==> IsRow(p.mail, id)
      ensures held == Lockable(p, System(rows, open), u, now) && locked == Own(p, u, held)
      ensures forall id :: id in held <==>
        id in rows && id !in taken && IsPending(p.config, rows[id], Age(p.mail, id), now) &&
        (match u
         case Original(_) => id.To?
         case AddTo(b, d) => (id.Added? && id.batch == b) || id == Notice(b, d))
      ensures forall id :: id in locked <==> id in held && (id.Notice? || Domain(p.fold, id.addr) == Some(u.domain))
    {
      held, locked := {}, {};
      var todo := rows.Keys;
      while todo != {}
        invariant todo <= rows.Keys
        invariant forall id :: id in held <==> id in Lockable(p, System(rows, open), u, now) && id !in todo
        invariant locked == Own(p, u, held)
        decreases todo
      {
        var id :| id in todo;
        todo := todo - {id};
        if InBatch(u, id) && id !in taken && IsPending(p.config, rows[id], Age(p.mail, id), now) {
          held := held + {id};
          if Mine(p.fold, u, id) { locked := locked + {id}; }
        }
      }
    }

    /** One UPDATE: rows of one table, by address. */
    method UpdateRecipient(addTo: bool, addr: Text, at: real, o: Outcome)
      modifies this
      ensures rows == UpdateAddress(old(rows), addTo, addr, at, o)
    {
      rows := map id | id in rows :: if Matches(addTo, addr, id) then Record(rows[id], at, o) else rows[id];
    }

    /** updateLocked */
    method UpdateLocked(addTo: bool, locked: set<Text>, at: real, o: Outcome)
      modifies this
      ensures rows.Keys == old(rows).Keys
      ensures forall id :: id in rows ==>
        rows[id] == if InTable(addTo, id) && id.addr in locked then Record(old(rows)[id], at, o) else old(rows)[id]
    {
      var todo := locked;
      while todo != {}
        invariant todo <= locked && rows.Keys == old(rows).Keys
        invariant forall id :: id in rows ==>
          rows[id] == if InTable(addTo, id) && id.addr in locked - todo
                      then Record(old(rows)[id], at, o) else old(rows)[id]
        decreases todo
      {
        var a :| a in todo;
        todo := todo - {a};
        UpdateRecipient(addTo, a, at, o);
      }
    }

    /** updateNotify on the notify row, if one was locked. */
    method UpdateNotify(locked: set<RowId>, u: Unit, at: real, o: Outcome)
      requires forall id :: id in locked && id.Notice? ==> u.AddTo? && id == Notice(u.batch, u.domain)
      modifies this
      ensures rows.Keys == old(rows).Keys
      ensures forall id :: id in rows ==>
        rows[id] == if id.Notice? && id in locked then Record(old(rows)[id], at, o) else old(rows)[id]
    {
      if u.AddTo? {
        var id := Notice(u.batch, u.domain);
        if id in locked && id in rows { rows := rows[id := Record(rows[id], at, o)]; }
      }
    }

    /** The per-recipient loop: one code per list entry, in order. */
    method RecordCodes(addTo: bool, fold: Text -> Text, recips: seq<Text>, locked: set<Text>, codes: bytes, at: real)
      requires |codes| == |recips|
      modifies this
      ensures rows.Keys == old(rows).Keys
      ensures forall id :: id in rows ==>
        rows[id] == if InTable(addTo, id)
                    then RecordAll(old(rows)[id], at, CodesFor(fold, recips, locked, codes, id.addr))
                    else old(rows)[id]
    {
      for i := 0 to |recips|
        invariant rows.Keys == old(rows).Keys
        invariant forall id :: id in rows ==>
          rows[id] == if InTable(addTo, id)
                      then RecordAll(old(rows)[id], at, CodesFor(fold, recips[..i], locked, codes[..i], id.addr))
                      else old(rows)[id]
      {
        var o := Outcome(codes[i], codes[i] == ACCEPT);
        if fold(recips[i]) in locked {
          UpdateRecipient(addTo, recips[i], at, o);
        }
        forall id | id in rows && InTable(addTo, id)
          ensures rows[id] ==
            RecordAll(old(rows)[id], at, CodesFor(fold, recips[..i + 1], locked, codes[..i + 1], id.addr))
        {
          OneCodeMore(fold, recips, locked, codes, id.addr, i, old(rows)[id], at);
        }
      }
      assert recips[..|recips|] == recips && codes[..|codes|] == codes;
    }

    /** The recipient rows: one outcome for all that were locked, or one code each. */
    method RecordRecipients(p: Post, u: Unit, locked: set<RowId>, net: Network, at: real)
      modifies this
      ensures rows.Keys == old(rows).Keys
      ensures forall id :: id in rows ==>
        rows[id] == if id.Notice? then old(rows)[id]
                    else RecordAll(old(rows)[id], at, Writes(p.fold, p.mail, u, locked, net, id))
    {
      forall id | id in rows { WritesByCase(p, u, locked, net, id, rows[id], at); }
      var recips := Recipients(p.fold, p.mail, u);
      var common := CommonOutcome(u.AddTo?, |recips|, net);
      if common.Some? {
        UpdateLocked(u.AddTo?, Addresses(locked), at, common.value);
      } else {
        RecordCodes(u.AddTo?, p.fold, recips, Folded(p.fold, Addresses(locked)), net.codes.value, at);
      }
    }

    /** deliverUnit past its retry guard, or recordUnitInvalid, with the commit
        succeeding: the rows are those of a Finish step. */
    method DeliverUnit(p: Post, u: Unit, locked: set<RowId>, net: Network, at: real)
      requires forall id :: id in locked ==> Mine(p.fold, u, id)
      modifies this
      ensures rows == Recorded(p.fold, p.mail, old(rows), u, locked, net, at)
    {
      forall id | id in rows && id.Notice? { WritesByCase(p, u, locked, net, id, rows[id], at); }
      RecordRecipients(p, u, locked, net, at);
      UpdateNotify(locked, u, at, NotifyOutcome(u.AddTo?, |Recipients(p.fold, p.mail, u)|, net));
    }
  }
}
