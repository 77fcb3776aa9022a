/** Who an indicator is sent to, and what the other host makes of it
    (cmd/fmsgd/indicators.go). */
module Indicators {
  import opened Prelude
  import opened Header
  import opened Parser
  import opened Codec
  import opened Identity
  import opened Datagrams

  /** Participants in index order: from, each to, then add to from and each add to. */
  function Participants(h: Header): seq<Address> {
    [h.from] + h.to + (if h.flags.hasAddTo then [Adder(h)] + h.addTo else [])
  }

  /** Index 0 is the from; the to entries follow in order; an add-to goes on with its
      adder, or the from when it names none, and then the added in order. */
  lemma {:induction false} ParticipantAt(h: Header, i: nat)
    ensures var ps, n := Participants(h), 1 + |h.to|;
      |ps| == (if h.flags.hasAddTo then n + 1 + |h.addTo| else n) && ps[0] == h.from &&
      (1 <= i < n ==> ps[i] == h.to[i - 1]) &&
      (h.flags.hasAddTo ==>
        ps[n] == (if h.addToFrom.Some? then h.addToFrom.value else h.from) &&
        (n < i <= n + |h.addTo| ==> ps[i] == h.addTo[i - n - 1]))
  {
  }

  /** A message or batch message an indicator can refer to. */
  datatype Subject = Subject(hash: bytes, participants: seq<Address>)

  datatype Target = Target(domain: bytes, hash: bytes, index: u16)

  /** Folding a folded text changes nothing. */
  ghost predicate FoldsOnce(env: Env) {
    forall x: bytes :: env.fold(env.fold(x)) == env.fold(x)
  }

  predicate IsLocal(env: Env, domain: bytes) { env.fold(domain) == env.fold(env.domain) }

  predicate HasDomain(env: Env, addrs: seq<Address>, domain: bytes) {
    exists a :: a in addrs && env.fold(a.domain) == env.fold(domain)
  }

  predicate Includes(env: Env, addrs: seq<Address>, who: Address) {
    exists a :: a in addrs && Key(env, a) == Key(env, who)
  }

  /** The subject can carry who's indicator to the domain: both are among its participants. */
  predicate Qualifies(env: Env, s: Subject, who: Address, domain: bytes) {
    HasDomain(env, s.participants, domain) && Includes(env, s.participants, who)
  }

  /** The original, when known, comes before the batches. */
  function Preference(original: Option<Subject>, batches: seq<Subject>): seq<Subject> {
    (if original.Some? then [original.value] else []) + batches
  }

  /** The original is tried before any batch, and the batches in the order given. */
  lemma {:induction false} PreferenceOrder(original: Option<Subject>, batches: seq<Subject>, i: nat)
    ensures var first := if original.Some? then 1 else 0;
      |Preference(original, batches)| == first + |batches| &&
      (original.Some? ==> Preference(original, batches)[0] == original.value) &&
      (i < |batches| ==> Preference(original, batches)[first + i] == batches[i])
  {
  }

  /** The first subject in order of preference that qualifies. */
  ghost predicate Chosen(env: Env, subjects: seq<Subject>, who: Address, domain: bytes, b: nat) {
    b < |subjects| && Qualifies(env, subjects[b], who, domain) &&
    forall c :: 0 <= c < b ==> !Qualifies(env, subjects[c], who, domain)
  }

  /** index is the lowest position of who in s. */
  ghost predicate LowestIndex(env: Env, s: Subject, who: Address, index: nat) {
    index < |s.participants| && Key(env, s.participants[index]) == Key(env, who) &&
    forall c :: 0 <= c < index ==> Key(env, s.participants[c]) != Key(env, who)
  }

  /** What a sealed subject satisfies: a SHA-256 hash, and a participant list
      short enough for the two index bytes. */
  ghost predicate SubjectOk(s: Subject) { |s.hash| == 32 && |s.participants| <= 0x1_0000 }

  /** The subject chosen for the domain can be named in a datagram. */
  ghost predicate Addressable(env: Env, subjects: seq<Subject>, who: Address, d: bytes) {
    exists b: nat, i: nat :: Chosen(env, subjects, who, d, b) && LowestIndex(env, subjects[b], who, i) &&
      |subjects[b].hash| == 32 && i <= 0xFFFF
  }

  /** A remote participant domain of the subjects, folded. */
  ghost predicate RemoteDomain(env: Env, subjects: seq<Subject>, d: bytes) {
    !IsLocal(env, d) && exists s, p :: s in subjects && p in s.participants && env.fold(p.domain) == d
  }

  method ParticipantIndex(env: Env, s: Subject, who: Address) returns (i: int)
    ensures -1 <= i < |s.participants|
    ensures i >= 0 ==> LowestIndex(env, s, who, i)
    ensures i >= 0 <==> Includes(env, s.participants, who)
  {
    for k := 0 to |s.participants|
      invariant forall c :: 0 <= c < k ==> Key(env, s.participants[c]) != Key(env, who)
    {
      if Key(env, s.participants[k]) == Key(env, who) {
        assert s.participants[k] in s.participants;
        return k;
      }
    }
    i := -1;
  }

  /** addDomains over every subject: each remote domain once. */
  method CollectDomains(env: Env, subjects: seq<Subject>) returns (domains: seq<bytes>)
    requires FoldsOnce(env)
    ensures forall i, j :: 0 <= i < j < |domains| ==> domains[i] != domains[j]
    ensures forall d :: d in domains <==> RemoteDomain(env, subjects, d)
  {
    domains := [];
    var seen: set<bytes> := {};
    for b := 0 to |subjects|
      invariant forall i, j :: 0 <= i < j < |domains| ==> domains[i] != domains[j]
      invariant forall d :: d in domains <==> d in seen
      invariant forall d :: d in seen <==> RemoteDomain(env, subjects[..b], d)
    {
      var s := subjects[b];
      assert subjects[..b + 1] == subjects[..b] + [s];
      for k := 0 to |s.participants|
        invariant forall i, j :: 0 <= i < j < |domains| ==> domains[i] != domains[j]
        invariant forall d :: d in domains <==> d in seen
        invariant forall d :: d in seen <==>
          (RemoteDomain(env, subjects[..b], d) ||
           (!IsLocal(env, d) && exists p :: p in s.participants[..k] && env.fold(p.domain) == d))
      {
        var p := s.participants[k];
        assert s.participants[..k + 1] == s.participants[..k] + [p];
        var d := env.fold(p.domain);
        if d !in seen && !IsLocal(env, d) {
          seen := seen + {d};
          domains := domains + [d];
        }
      }
      assert s.participants[..|s.participants|] == s.participants;
    }
    assert subjects[..|subjects|] == subjects;
  }

  /** t is the one datagram owed to its domain. */
  ghost predicate RightTarget(env: Env, subjects: seq<Subject>, who: Address, t: Target) {
    |t.hash| == 32 &&
    exists b: nat :: Chosen(env, subjects, who, t.domain, b) && t.hash == subjects[b].hash &&
      LowestIndex(env, subjects[b], who, t.index)
  }

  /** Some subject has participants on the domain and who among them. */
  ghost predicate Shares(env: Env, subjects: seq<Subject>, who: Address, d: bytes) {
    exists s :: s in subjects && Qualifies(env, s, who, d)
  }

  ghost predicate Served(targets: seq<Target>, d: bytes) {
    exists t :: t in targets && t.domain == d
  }

  lemma ServedSnoc(targets: seq<Target>, t: Target)
    ensures forall d :: Served(targets + [t], d) <==> Served(targets, d) || d == t.domain
  {
    var all := targets + [t];
    forall d ensures Served(all, d) <==> Served(targets, d) || d == t.domain {
      if d == t.domain { assert t in all; }
      if Served(targets, d) {
        var u :| u in targets && u.domain == d;
        assert u in all;
      }
    }
  }

  /** Of sealed subjects, every shared one can be named. */
  lemma {:induction false} AddressableIffShares(env: Env, subjects: seq<Subject>, who: Address, d: bytes)
    requires forall s :: s in subjects ==> SubjectOk(s)
    ensures Addressable(env, subjects, who, d) <==> Shares(env, subjects, who, d)
  {
    var b, i := ChosenOf(env, subjects, who, d, 0);
    if b < |subjects| { assert subjects[b] in subjects; }
    if Addressable(env, subjects, who, d) {
      var c: nat, j: nat :| Chosen(env, subjects, who, d, c) && LowestIndex(env, subjects[c], who, j);
      assert subjects[c] in subjects;
    }
  }

  /** The first subject that qualifies and who's index in it, if any does. */
  lemma {:induction false} ChosenOf(env: Env, subjects: seq<Subject>, who: Address, d: bytes, from: nat)
    returns (b: nat, i: nat)
    requires from <= |subjects| && forall c :: 0 <= c < from ==> !Qualifies(env, subjects[c], who, d)
    ensures b < |subjects| ==> Chosen(env, subjects, who, d, b) && LowestIndex(env, subjects[b], who, i)
    ensures b >= |subjects| ==> !Shares(env, subjects, who, d)
    decreases |subjects| - from
  {
    if from == |subjects| {
      b, i := from, 0;
    } else if Qualifies(env, subjects[from], who, d) {
      b := from;
      i := IndexOf(env, subjects[from], who, 0);
    } else {
      b, i := ChosenOf(env, subjects, who, d, from + 1);
    }
  }

  lemma {:induction false} IndexOf(env: Env, s: Subject, who: Address, from: nat) returns (i: nat)
    requires Includes(env, s.participants, who) && from <= |s.participants|
    requires forall c :: 0 <= c < from ==> Key(env, s.participants[c]) != Key(env, who)
    ensures LowestIndex(env, s, who, i)
    decreases |s.participants| - from
  {
    if from < |s.participants| && Key(env, s.participants[from]) == Key(env, who) {
      i := from;
    } else {
      i := IndexOf(env, s, who, from + 1);
    }
  }

  /** The search for one domain's subject: original first, then batches by id. */
  method ChooseSubject(env: Env, subjects: seq<Subject>, who: Address, d: bytes) returns (b: int, index: int)
    ensures -1 <= b < |subjects|
    ensures b >= 0 ==> Chosen(env, subjects, who, d, b) && index >= 0 && LowestIndex(env, subjects[b], who, index)
    ensures b < 0 ==> forall s :: s in subjects ==> !Qualifies(env, s, who, d)
  {
    for k := 0 to |subjects|
      invariant forall c :: 0 <= c < k ==> !Qualifies(env, subjects[c], who, d)
    {
      if HasDomain(env, subjects[k].participants, d) {
        var i := ParticipantIndex(env, subjects[k], who);
        if i >= 0 { return k, i; }
      }
    }
    b, index := -1, -1;
  }

  /** selectIndicatorTargets: exactly one target for each remote domain that
      shares a subject with who, by the preferred subject, and none for others.
      A preferred subject that cannot be named is not replaced by a later one. */
  method SelectTargets(env: Env, who: Address, original: Option<Subject>, batches: seq<Subject>)
    returns (targets: seq<Target>)
    requires FoldsOnce(env)
    ensures forall i, j :: 0 <= i < j < |targets| ==> targets[i].domain != targets[j].domain
    ensures forall t :: t in targets ==>
      RemoteDomain(env, Preference(original, batches), t.domain) &&
      RightTarget(env, Preference(original, batches), who, t)
    ensures forall d :: Served(targets, d) <==>
      (RemoteDomain(env, Preference(original, batches), d) && Addressable(env, Preference(original, batches), who, d))
  {
    var subjects := Preference(original, batches);
    var domains := CollectDomains(env, subjects);
    targets := [];
    for k := 0 to |domains|
      invariant Covers(env, subjects, who, domains[..k], targets)
    {
      var d := domains[k];
      assert domains[..k + 1] == domains[..k] + [d] && d !in domains[..k];
      var b, index := ChooseSubject(env, subjects, who, d);
      if b >= 0 && |subjects[b].hash| == 32 && index <= 0xFFFF {
        var t := Target(d, subjects[b].hash, index);
        CoversTarget(env, subjects, who, domains[..k], targets, t, b);
        targets := targets + [t];
      } else {
        NotAddressable(env, subjects, who, d, b, index);
        CoversSkip(env, subjects, who, domains[..k], targets, d);
      }
    }
    assert domains[..|domains|] == domains;
  }

  /** targets serve exactly those of the domains with a subject that can be named. */
  ghost predicate Covers(env: Env, subjects: seq<Subject>, who: Address, domains: seq<bytes>, targets: seq<Target>) {
    (forall i, j :: 0 <= i < j < |targets| ==> targets[i].domain != targets[j].domain) &&
    (forall t :: t in targets ==> t.domain in domains && RightTarget(env, subjects, who, t)) &&
    (forall d :: Served(targets, d) <==> d in domains && Addressable(env, subjects, who, d))
  }

  lemma CoversTarget(env: Env, subjects: seq<Subject>, who: Address, domains: seq<bytes>, targets: seq<Target>,
                     t: Target, b: nat)
    requires Covers(env, subjects, who, domains, targets) && t.domain !in domains
    requires Chosen(env, subjects, who, t.domain, b) && t.hash == subjects[b].hash && |t.hash| == 32
    requires LowestIndex(env, subjects[b], who, t.index)
    ensures Covers(env, subjects, who, domains + [t.domain], targets + [t])
  {
    assert RightTarget(env, subjects, who, t);
    assert Addressable(env, subjects, who, t.domain);
    ServedSnoc(targets, t);
  }

  lemma CoversSkip(env: Env, subjects: seq<Subject>, who: Address, domains: seq<bytes>, targets: seq<Target>, d: bytes)
    requires Covers(env, subjects, who, domains, targets) && !Addressable(env, subjects, who, d)
    ensures Covers(env, subjects, who, domains + [d], targets)
  {
  }

  lemma {:induction false} NotAddressable(env: Env, subjects: seq<Subject>, who: Address, d: bytes, b: int, index: int)
    requires -1 <= b < |subjects|
    requires b >= 0 ==> index >= 0 && Chosen(env, subjects, who, d, b) && LowestIndex(env, subjects[b], who, index) &&
                        (|subjects[b].hash| != 32 || index > 0xFFFF)
    requires b < 0 ==> forall s :: s in subjects ==> !Qualifies(env, s, who, d)
    ensures !Addressable(env, subjects, who, d)
  {
    forall c: nat, i: nat | Chosen(env, subjects, who, d, c) && LowestIndex(env, subjects[c], who, i)
      ensures b >= 0 && c == b && i == index
    {
      assert subjects[c] in subjects;
    }
  }

  // ---- the same subject at two hosts ----

  /** How a host holds a subject: its own wire form, or, for an original received
      only through an add-to, one of its batches. */
  datatype Held = Snapshot(wire: Wire) | ThroughBatch(batch: Wire)

  /** subjectByHash and subjectsOf: a batch repeats the original's from and to. */
  function HeldParticipants(held: Held): seq<Address> {
    match held
    case Snapshot(w) => Participants(w.h)
    case ThroughBatch(b) => [b.h.from] + b.h.to
  }

  /** The host holds the message o, whose hash is given, in one of the two ways. */
  ghost predicate Holds(cr: Crypto, lib: Env, held: Held, o: Wire, hash: bytes) {
    WellFormed(lib, o.h) && MessageHash(cr, o) == Some(hash) &&
    (held == Snapshot(o) || (!o.h.flags.hasAddTo && exists b: Batch :: held == ThroughBatch(BatchWire(o, hash, b))))
  }

  /** Two hosts that hold the subject of one hash list the same participants at the
      same indices, however each of them came to hold it. */
  lemma {:induction false} ParticipantsAgree(cr: Crypto, lib: Env, a: Held, o: Wire, b: Held, o': Wire, hash: bytes)
    requires Holds(cr, lib, a, o, hash) && Holds(cr, lib, b, o', hash) && NoCollision(cr, o, o')
    ensures HeldParticipants(a) == HeldParticipants(b)
  {
    SameHashSameMessage(cr, lib, o, o');
    HeldAre(cr, lib, a, o, hash);
    HeldAre(cr, lib, b, o', hash);
  }

  lemma {:induction false} HeldAre(cr: Crypto, lib: Env, held: Held, o: Wire, hash: bytes)
    requires Holds(cr, lib, held, o, hash)
    ensures HeldParticipants(held) == Participants(o.h)
  {
    if held.ThroughBatch? {
      assert [o.h.from] + o.h.to + [] == [o.h.from] + o.h.to;
    }
  }

  // ---- the receiving host ----

  const TTL_MAX := 120

  /** The published notice: an empty emoji clears. */
  datatype Notice = Notice(id: int, from: bytes, emoji: bytes, ttl: int)

  datatype Stored = Stored(id: int, participants: seq<Address>)

  /** The receiving host: its subjects by hash, and whether a source address may
      speak for a domain. */
  datatype Host = Host(env: Env, single: bytes -> bool, subjects: map<bytes, Stored>, authorised: bytes -> bool)

  /** The data and ttl a datagram or notice stands for. */
  function Normal(data: bytes, ttl: nat): (bytes, nat) {
    var t := if ttl <= TTL_MAX then ttl else TTL_MAX;
    if data == [] || t == 0 then ([], 0) else (data, t)
  }

  /** A clearing state is empty and has no life left; any other keeps its data, and its
      life up to two minutes. */
  lemma {:induction false} NormalMeans(data: bytes, ttl: nat)
    ensures var (d, t) := Normal(data, ttl);
      if data == [] || ttl == 0 then d == [] && t == 0
      else d == data && 0 < t <= 120 && t <= ttl && (t == ttl || t == 120)
  {
  }

  /** verifyAndPublish: the notice published, or none when the datagram is dropped. */
  function VerifyAndPublish(host: Host, b: bytes): Option<Notice> {
    match ParseDatagram(host.single, b)
    case None => None
    case Some(d) =>
      if d.hash !in host.subjects then None
      else
        var parts := host.subjects[d.hash].participants;
        if d.index >= |parts| then None
        else
          var from := parts[d.index];
          if IsLocal(host.env, from.domain) || !host.authorised(from.domain) then None
          else
            var (data, ttl) := Normal(d.data, d.ttl);
            Some(Notice(host.subjects[d.hash].id, AddressText(from), data, ttl))
  }

  datatype Handled = Ignored | Rejected | SendFor(who: Address, data: bytes, ttl: byte)

  /** handleNotice up to the choice of targets: a host sends only for addresses
      it hosts. */
  function HandleNotice(env: Env, single: bytes -> bool, n: Notice): Handled {
    match ParseAddress(env, n.from)
    case None => Rejected
    case Some(from) =>
      if !IsLocal(env, from.domain) then Ignored
      else if n.id <= 0 || n.ttl < 0 || !ValidData(single, n.emoji) then Rejected
      else
        var (data, ttl) := Normal(n.emoji, n.ttl);
        SendFor(from, data, ttl)
  }

  /** A datagram is published exactly when it parses, names a held subject and one of
      its participants, and comes for a remote address from its own host. */
  lemma PublishedIff(host: Host, b: bytes)
    ensures VerifyAndPublish(host, b).Some? <==>
      exists d :: DatagramOk(host.single, d) && b == Marshal(d) && d.hash in host.subjects &&
        d.index < |host.subjects[d.hash].participants| &&
        var from := host.subjects[d.hash].participants[d.index];
        !IsLocal(host.env, from.domain) && host.authorised(from.domain)
  {
    var p := ParseDatagram(host.single, b);
    if p.Some? { DatagramCodec(host.single, b, p.value); }
    forall d | DatagramOk(host.single, d) && b == Marshal(d) ensures p == Some(d) {
      DatagramCodec(host.single, b, d);
    }
  }

  /** A valid notice for a hosted address is sent on, for that address, with its
      state normalised. */
  lemma LocalNoticeSent(env: Env, single: bytes -> bool, who: Address, id: int, emoji: bytes, ttl: nat)
    requires ValidAddress(env, who) && IsLocal(env, who.domain) && id > 0 && ValidData(single, emoji)
    ensures var (data, life) := Normal(emoji, ttl);
      HandleNotice(env, single, Notice(id, AddressText(who), emoji, ttl)) == SendFor(who, data, life) &&
      (data == [] <==> emoji == [] || ttl == 0)
  {
    AddressTextParses(env, who);
  }

  /** What becomes of a notice, exactly: it is sent for a hosted address when it is valid,
      ignored for an address hosted elsewhere, and rejected otherwise. */
  lemma {:induction false} NoticeHandledIff(env: Env, single: bytes -> bool, n: Notice)
    ensures var r := HandleNotice(env, single, n);
      (r == Ignored <==>
        exists a :: ValidAddress(env, a) && n.from == AddressText(a) && env.fold(a.domain) != env.fold(env.domain)) &&
      (r.SendFor? <==>
        n.id > 0 && n.ttl >= 0 && (n.emoji == [] || (|n.emoji| <= 64 && single(n.emoji))) &&
        exists a :: ValidAddress(env, a) && n.from == AddressText(a) && env.fold(a.domain) == env.fold(env.domain)) &&
      (r.SendFor? ==> n.from == AddressText(r.who) && (r.data, r.ttl) == Normal(n.emoji, n.ttl))
  {
    var p := ParseAddress(env, n.from);
    if p.Some? { ParsedAddressText(env, n.from); }
    forall a | ValidAddress(env, a) && n.from == AddressText(a) ensures p == Some(a) { AddressTextParses(env, a); }
  }

  /** What is published from a received datagram is never sent on again. */
  lemma PublishedNeverResent(host: Host, b: bytes)
    requires forall x, a :: x in host.subjects && a in host.subjects[x].participants ==> ValidAddress(host.env, a)
    ensures var n := VerifyAndPublish(host, b);
      n.Some? ==> HandleNotice(host.env, host.single, n.value) == Ignored && 0 <= n.value.ttl <= TTL_MAX
  {
    var n := VerifyAndPublish(host, b);
    if n.Some? {
      var d := ParseDatagram(host.single, b).value;
      var from := host.subjects[d.hash].participants[d.index];
      AddressTextParses(host.env, from);
    }
  }

  /** The host publishes who's state, as the sender's client set it, under the hash. */
  ghost predicate Arrives(env: Env, host: Host, t: Target, who: Address, emoji: bytes, ttl: nat)
    requires t.hash in host.subjects
  {
    var (data, life) := Normal(emoji, ttl);
    var n := VerifyAndPublish(host, Marshal(Datagram(t.hash, t.index, life, data)));
    n.Some? && n.value.id == host.subjects[t.hash].id && env.fold(n.value.from) == Key(env, who) &&
    n.value.emoji == data && n.value.ttl == life && life <= TTL_MAX
  }

  /** The host may publish for who, however spelled: who is not hosted there, and the
      datagram's source may speak for who's domain. */
  ghost predicate MaySpeak(env: Env, host: Host, who: Address) {
    forall a: Address :: Key(env, a) == Key(env, who) ==> !IsLocal(host.env, a.domain) && host.authorised(a.domain)
  }

  /** A datagram for the chosen subject is published at a host with the same
      participants for the very participant it was sent for. */
  lemma {:induction false} DatagramPublished(env: Env, host: Host, s: Subject, who: Address, t: Target, emoji: bytes,
                                             ttl: nat)
    requires t.hash == s.hash && |s.hash| == 32 && LowestIndex(env, s, who, t.index) && ValidData(host.single, emoji)
    requires t.hash in host.subjects && host.subjects[t.hash].participants == s.participants && MaySpeak(env, host, who)
    ensures Arrives(env, host, t, who, emoji, ttl)
  {
    var (data, life) := Normal(emoji, ttl);
    var d := Datagram(t.hash, t.index, life, data);
    DatagramCodec(host.single, Marshal(d), d);
    assert Key(env, s.participants[t.index]) == Key(env, who);
  }

  /** How a host holds messages, by hash, and the messages themselves. */
  datatype Holdings = Holdings(form: bytes -> Held, message: bytes -> Wire)

  /** The participants listed for a hash are those of what the host holds under it. */
  ghost predicate Backed(cr: Crypto, lib: Env, x: Holdings, hash: bytes, participants: seq<Address>) {
    Holds(cr, lib, x.form(hash), x.message(hash), hash) && participants == HeldParticipants(x.form(hash))
  }

  lemma {:induction false} BackedAlike(cr: Crypto, lib: Env, x: Holdings, y: Holdings, hash: bytes, ps: seq<Address>,
                                       qs: seq<Address>)
    requires Backed(cr, lib, x, hash, ps) && Backed(cr, lib, y, hash, qs)
    requires NoCollision(cr, x.message(hash), y.message(hash))
    ensures ps == qs
  {
    ParticipantsAgree(cr, lib, x.form(hash), x.message(hash), y.form(hash), y.message(hash), hash);
  }

  /** From end to end: for every target SelectTargets chooses, the datagram sent to a
      host that holds the subject, in whatever form, is published there for the
      very participant it was sent for, with the state the sender's client set.
      That the two hosts list the same participants is not assumed. */
  lemma {:induction false} IndicatorArrives(cr: Crypto, lib: Env, env: Env, mine: Holdings, host: Host,
                                            theirs: Holdings,
                                            subjects: seq<Subject>, who: Address, t: Target, emoji: bytes, ttl: nat)
    requires RightTarget(env, subjects, who, t) && ValidData(host.single, emoji)
    requires forall s :: s in subjects ==> Backed(cr, lib, mine, s.hash, s.participants)
    requires t.hash in host.subjects && Backed(cr, lib, theirs, t.hash, host.subjects[t.hash].participants)
    requires NoCollision(cr, mine.message(t.hash), theirs.message(t.hash))
    requires MaySpeak(env, host, who)
    ensures Arrives(env, host, t, who, emoji, ttl)
  {
    var b: nat :| Chosen(env, subjects, who, t.domain, b) && t.hash == subjects[b].hash &&
      LowestIndex(env, subjects[b], who, t.index);
    var s := subjects[b];
    assert s in subjects;
    BackedAlike(cr, lib, mine, theirs, t.hash, s.participants, host.subjects[t.hash].participants);
    DatagramPublished(env, host, s, who, t, emoji, ttl);
  }
}
