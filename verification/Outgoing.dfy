/** The registry of in-flight outgoing messages (cmd/fmsgd/outgoing.go), against
    which incoming challenges are matched by header hash and address. */
module Outgoing {
  import opened Prelude

  type Ip = string

  /** The message registered first, and the addresses now being served. */
  datatype Entry<M> = Entry(message: M, ips: set<Ip>)
  type Registry<M> = map<bytes, Entry<M>>

  datatype Event<M> = Register(hash: bytes, message: M, ip: Ip) | Remove(hash: bytes, ip: Ip)

  function Apply<M>(r: Registry<M>, e: Event<M>): Registry<M> {
    match e
    case Register(hash, m, ip) =>
      if hash in r then r[hash := Entry(r[hash].message, r[hash].ips + {ip})] else r[hash := Entry(m, {ip})]
    case Remove(hash, ip) =>
      if hash !in r then r
      else if r[hash].ips - {ip} == {} then r - {hash}
      else r[hash := Entry(r[hash].message, r[hash].ips - {ip})]
  }

  function Lookup<M>(r: Registry<M>, hash: bytes, ip: Ip): Option<M> {
    if hash in r && ip in r[hash].ips then Some(r[hash].message) else None
  }

  function Run<M>(es: seq<Event<M>>): Registry<M> {
    if es == [] then map[] else Apply(Run(es[..|es| - 1]), es[|es| - 1])
  }

  predicate About<M>(e: Event<M>, hash: bytes, ip: Ip) { e.hash == hash && e.ip == ip }

  /** The last event of the run for this hash and address registered it. */
  predicate Live<M>(es: seq<Event<M>>, hash: bytes, ip: Ip) {
    es != [] &&
    if About(es[|es| - 1], hash, ip) then es[|es| - 1].Register? else Live(es[..|es| - 1], hash, ip)
  }

  /** After any run a hash and address are found exactly when the last event
      about them was a registration: the registry keeps a set, not a count. */
  lemma {:induction false} FoundIffLive<M>(es: seq<Event<M>>, hash: bytes, ip: Ip)
    ensures Lookup(Run(es), hash, ip).Some? <==> Live(es, hash, ip)
  {
    if es != [] {
      FoundIffLive(es[..|es| - 1], hash, ip);
    }
  }

  /** No entry outlives its addresses. */
  lemma {:induction false} NoEmptyEntries<M>(es: seq<Event<M>>, hash: bytes)
    ensures hash in Run(es) ==> Run(es)[hash].ips != {}
  {
    if es != [] {
      NoEmptyEntries(es[..|es| - 1], hash);
      var r := Run(es[..|es| - 1]);
      if hash in r { var ip :| ip in r[hash].ips; }
    }
  }

  /** What a lookup answers was registered under that hash in the run. */
  lemma {:induction false} AnswerWasRegistered<M>(es: seq<Event<M>>, hash: bytes)
    ensures hash in Run(es) ==>
      exists i :: 0 <= i < |es| && es[i].Register? && es[i].hash == hash && es[i].message == Run(es)[hash].message
  {
    if es != [] {
      var init := es[..|es| - 1];
      AnswerWasRegistered(init, hash);
      if hash in Run(init) && hash in Run(es) {
        var i :| 0 <= i < |init| && init[i].Register? && init[i].hash == hash &&
          init[i].message == Run(init)[hash].message;
        assert es[i] == init[i];
      } else if hash in Run(es) {
        assert es[|es| - 1].Register?;
      }
    }
  }

  /** The message an entry holds once m is registered: the one that is there, if any. */
  function FirstMessage<M>(r: Registry<M>, hash: bytes, m: M): M {
    if hash in r then r[hash].message else m
  }

  /** While nothing removes the pair, a lookup answers with the message that was under
      the hash when e registered, or with e's own. So e's own is answered, in
      any run, if and only if no other was there. */
  lemma {:induction false} FirstMessageAnswers<M>(before: seq<Event<M>>, e: Event<M>, after: seq<Event<M>>)
    requires e.Register? && Remove(e.hash, e.ip) !in after
    ensures var r := Run(before);
      var found := Lookup(Run(before + [e] + after), e.hash, e.ip);
      found == Some(FirstMessage(r, e.hash, e.message)) &&
      (found == Some(e.message) <==> e.hash !in r || r[e.hash].message == e.message)
    decreases |after|
  {
    var es := before + [e] + after;
    if after == [] {
      assert es[..|es| - 1] == before && es[|es| - 1] == e;
    } else {
      var init, last := after[..|after| - 1], after[|after| - 1];
      assert es[..|es| - 1] == before + [e] + init && es[|es| - 1] == last && last in after;
      FirstMessageAnswers(before, e, init);
      LookupStays(Run(before + [e] + init), last, e.hash, e.ip);
    }
  }

  /** Another address may be removed, another message registered: the pair is found as
      before. */
  lemma {:induction false} LookupStays<M>(r: Registry<M>, e: Event<M>, hash: bytes, ip: Ip)
    requires Lookup(r, hash, ip).Some? && e != Remove(hash, ip)
    ensures Lookup(Apply(r, e), hash, ip) == Lookup(r, hash, ip)
  {
    if e.Remove? && e.hash == hash { assert ip in r[hash].ips - {e.ip}; }
  }

  /** Every removal of the pair is followed by a registration of it. */
  ghost predicate Renewed<M(!new)>(es: seq<Event<M>>, hash: bytes, ip: Ip) {
    forall i :: 0 <= i < |es| && es[i].Remove? && About(es[i], hash, ip) ==> RenewedAfter(es, i, hash, ip)
  }

  ghost predicate RenewedAfter<M(!new)>(es: seq<Event<M>>, i: nat, hash: bytes, ip: Ip) {
    exists j :: i < j < |es| && es[j].Register? && About(es[j], hash, ip)
  }

  /** A delivery that registered is found, whatever happened since, exactly when each
      end of a delivery of the same header to the same address was followed by
      the start of another. */
  lemma {:induction false} InFlightFoundIff<M(!new)>(before: seq<Event<M>>, e: Event<M>, after: seq<Event<M>>)
    requires e.Register?
    ensures Lookup(Run(before + [e] + after), e.hash, e.ip).Some? <==> Renewed(after, e.hash, e.ip)
  {
    FoundIffLive(before + [e] + after, e.hash, e.ip);
    LiveIff(before, e, after);
  }

  lemma {:induction false} LiveIff<M(!new)>(before: seq<Event<M>>, e: Event<M>, after: seq<Event<M>>)
    requires e.Register?
    ensures Live(before + [e] + after, e.hash, e.ip) <==> Renewed(after, e.hash, e.ip)
    decreases |after|
  {
    var es := before + [e] + after;
    if after == [] {
      assert es[|es| - 1] == e;
    } else {
      var init, last := after[..|after| - 1], after[|after| - 1];
      assert es[..|es| - 1] == before + [e] + init && es[|es| - 1] == last;
      LiveIff(before, e, init);
      RenewedSnoc(init, last, e.hash, e.ip);
      assert after == init + [last];
    }
  }

  lemma {:induction false} RenewedSnoc<M(!new)>(init: seq<Event<M>>, last: Event<M>, hash: bytes, ip: Ip)
    ensures Renewed(init + [last], hash, ip) <==>
            if About(last, hash, ip) then last.Register? else Renewed(init, hash, ip)
  {
    var es, n := init + [last], |init|;
    assert es[n] == last;
    forall i | 0 <= i < n
      ensures es[i] == init[i]
      ensures RenewedAfter(es, i, hash, ip) <==>
              RenewedAfter(init, i, hash, ip) || (last.Register? && About(last, hash, ip))
    {
      if RenewedAfter(init, i, hash, ip) {
        var j :| i < j < n && init[j].Register? && About(init[j], hash, ip);
        assert es[j] == init[j];
      }
    }
    if Renewed(es, hash, ip) && !About(last, hash, ip) {
      forall i | 0 <= i < n && init[i].Remove? && About(init[i], hash, ip) ensures RenewedAfter(init, i, hash, ip) {
        assert RenewedAfter(es, i, hash, ip);
      }
    }
  }

  /** Two deliveries of one message to one address: when the first ends, the
      second is no longer found. */
  lemma {:induction false} SharedAddressLost<M>(hash: bytes, m: M, ip: Ip)
    ensures Lookup(Run([Register(hash, m, ip), Register(hash, m, ip), Remove(hash, ip)]), hash, ip).None?
  {
    FoundIffLive([Register(hash, m, ip), Register(hash, m, ip), Remove(hash, ip)], hash, ip);
  }

  /** The shared map, changed in place. */
  class OutgoingMap<M> {
    var entries: Registry<M>

    constructor ()
      ensures entries == map[]
    {
      entries := map[];
    }

    method RegisterOutgoing(hash: bytes, m: M, ip: Ip)
      modifies this
      ensures entries == Apply(old(entries), Register(hash, m, ip))
    {
      if hash !in entries {
        entries := entries[hash := Entry(m, {})];
      }
      var e := entries[hash];
      assert {} + {ip} == {ip};
      entries := entries[hash := Entry(e.message, e.ips + {ip})];
      assert old(hash !in entries) ==> entries == old(entries)[hash := Entry(m, {ip})];
    }

    method LookupOutgoing(hash: bytes, ip: Ip) returns (m: Option<M>)
      ensures m == Lookup(entries, hash, ip)
    {
      if hash !in entries { return None; }
      var e := entries[hash];
      if ip !in e.ips { return None; }
      m := Some(e.message);
    }

    method RemoveOutgoingIP(hash: bytes, ip: Ip)
      modifies this
      ensures entries == Apply(old(entries), Remove(hash, ip))
    {
      if hash in entries {
        entries := entries[hash := Entry(entries[hash].message, entries[hash].ips - {ip})];
        if entries[hash].ips == {} {
          entries := entries - {hash};
        }
      }
    }
  }
}
