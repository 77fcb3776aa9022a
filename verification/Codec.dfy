/** The header reader and the encoder undo each other, in both directions. */
module Codec {
  import opened Prelude
  import opened Many
  import opened Header
  import opened Parser

  // ---- well-formed headers ----

  predicate Sendable(env: Env, a: Address) {
    ValidAddress(env, a) && |AddressText(a)| < 256
  }

  predicate AllSendable(env: Env, addrs: seq<Address>) {
    forall a :: a in addrs ==> Sendable(env, a)
  }

  /** No address repeats an earlier one, whatever its case. */
  predicate Distinct(env: Env, addrs: seq<Address>) {
    forall i, j :: 0 <= i < j < |addrs| ==> Key(env, addrs[i]) != Key(env, addrs[j])
  }

  predicate ListOk(env: Env, addrs: seq<Address>) {
    0 < |addrs| < 256 && AllSendable(env, addrs) && Distinct(env, addrs)
  }

  predicate LeadOk(l: Lead) {
    !l.flags.reserved && !(l.flags.hasAddTo && l.flags.terminal) &&
    |l.pid| == (if l.flags.hasPid then 32 else 0)
  }

  predicate AddToOk(env: Env, f: Flags, from: Address, to: seq<Address>, x: AddTo) {
    if f.hasAddTo then
      f.hasPid && x.from.Some? && Sendable(env, x.from.value) &&
      InFromOrTo(env, x.from.value, from, to) && ListOk(env, x.addrs)
    else x == AddTo(None, [])
  }

  predicate TypeOk(env: Env, common: bool, t: MediaType) {
    if common then t.id in env.media && t.name == env.media[t.id]
    else t.id == 0 && |t.name| < 256 && Ascii(t.name)
  }

  predicate SizesOk(deflate: bool, s: Sizes) { !deflate ==> s.expanded == 0 }

  predicate AttachmentOk(env: Env, a: Attachment) {
    a.flags.reserved == 0 && TypeOk(env, a.flags.commonType, MediaType(a.typeID, a.mediaType)) &&
    ValidFilename(env, a.filename) && SizesOk(a.flags.deflate, Sizes(a.size, a.expandedSize))
  }

  predicate DistinctNames(env: Env, atts: seq<Attachment>) {
    forall i, j :: 0 <= i < j < |atts| ==> env.fold(atts[i].filename) != env.fold(atts[j].filename)
  }

  predicate AttachmentsOk(env: Env, atts: seq<Attachment>) {
    |atts| < 256 && (forall a :: a in atts ==> AttachmentOk(env, a)) && DistinctNames(env, atts)
  }

  predicate TimeOk(env: Env, t: bytes) { |t| == 8 && !TooOld(env, t) && !TooNew(env, t) }

  predicate RoutingOk(env: Env, r: Routing) {
    LeadOk(r.lead) && Sendable(env, r.from) && ListOk(env, r.to) &&
    AddToOk(env, r.lead.flags, r.from, r.to, r.addTo)
  }

  predicate DescriptionOk(env: Env, f: Flags, d: Description) {
    TimeOk(env, d.time) && (if f.hasPid then d.topic == [] else |d.topic| < 256) &&
    TypeOk(env, f.commonType, d.mediaType)
  }

  predicate PayloadsOk(env: Env, f: Flags, p: Payloads) {
    SizesOk(f.deflate, p.sizes) && (f.deflate ==> p.sizes.expanded <= env.maxExpanded) &&
    AttachmentsOk(env, p.atts) && TotalsFit(env, f.deflate, p.sizes, p.atts)
  }

  function RoutingOf(h: Header): Routing {
    Routing(Lead(h.flags, h.pid), h.from, h.to, AddTo(h.addToFrom, h.addTo))
  }

  function DescriptionOf(h: Header): Description {
    Description(h.time, h.topic, MediaType(h.typeID, h.mediaType))
  }

  function PayloadsOf(h: Header): Payloads {
    Payloads(Sizes(h.size, h.expandedSize), h.attachments)
  }

  /** What the wire format asks of a header (cmd/fmsgd/host.go:516-1161), under this
      host's limits. */
  predicate WellFormed(env: Env, h: Header) {
    h.version == 1 && RoutingOk(env, RoutingOf(h)) &&
    DescriptionOk(env, h.flags, DescriptionOf(h)) && PayloadsOk(env, h.flags, PayloadsOf(h))
  }

  // ---- primitive reads ----

  /** Taking the front off a concatenation. */
  lemma {:induction false} Front(a: bytes, b: bytes)
    ensures (a + b)[..|a|] == a && (a + b)[|a|..] == b
  {
  }

  lemma {:induction false} SliceSound(s: bytes)
    requires ReadSlice(s).Got? && ReadSlice(s).rest != []
    ensures var r := ReadSlice(s); |r.value| < 256 && s == Prefixed(r.value) + r.rest
  {
    var n := s[0];
    assert s == [n] + s[1..];
    assert s[1..] == s[1..][..n] + s[1..][n..];
  }

  lemma {:induction false} SliceComplete(t: bytes, rest: bytes)
    requires |t| < 256
    ensures ReadSlice(Prefixed(t) + rest) == Got(t, rest)
  {
    assert (Prefixed(t) + rest)[1..] == t + rest;
    Front(t, rest);
  }

  lemma {:induction false} U32Sound(s: bytes)
    requires ReadU32(s).Got?
    ensures s == LE32(ReadU32(s).value) + ReadU32(s).rest
  {
    LE32Encodes(s[..4]);
  }

  lemma {:induction false} U32Complete(n: u32, rest: bytes)
    ensures ReadU32(LE32(n) + rest) == Got(n, rest)
  {
    LE32Decodes(n);
    Front(LE32(n), rest);
  }

  // ---- addresses ----

  lemma {:induction false} LabelsCover(d: bytes, c: byte)
    requires c in d && c != DOT
    ensures exists l :: l in Labels(d) && c in l
  {
    var rest := Labels(d[1..]);
    if d[0] == c {
      assert ([d[0]] + rest[0]) in Labels(d);
    } else {
      LabelsCover(d[1..], c);
      var l :| l in rest && c in l;
      if d[0] == DOT {
        assert l in Labels(d);
      } else if l == rest[0] {
        assert ([d[0]] + l) in Labels(d) && c in [d[0]] + l;
      } else {
        assert l in rest[1..];
        assert l in Labels(d);
      }
    }
  }

  lemma {:induction false} DomainHasNoAt(d: bytes)
    requires ValidDomain(d)
    ensures AT !in d
  {
    if AT in d && d != LOCALHOST {
      LabelsCover(d, AT);
    }
  }

  lemma {:induction false} AddressTextParses(env: Env, a: Address)
    requires ValidAddress(env, a)
    ensures ParseAddress(env, AddressText(a)) == Some(a)
  {
    var b, at := AddressText(a), 1 + |a.user|;
    assert LastIndex(b, AT) == at by {
      DomainHasNoAt(a.domain);
      LastAt([AT] + a.user, a.domain);
    }
    AddressTextParts(a);
    AddressTextLength(a);
  }

  lemma {:induction false} AddressTextParts(a: Address)
    ensures var b, at := AddressText(a), 1 + |a.user|;
      |b| == at + 1 + |a.domain| && b[0] == AT && b[1..at] == a.user && b[at + 1..] == a.domain
  {
  }

  lemma {:induction false} AddressTextLength(a: Address)
    requires |a.user| > 0 && |a.domain| > 0
    ensures |AddressText(a)| >= 4
  {
  }

  /** The last @ is the one before a text without any. */
  lemma {:induction false} LastAt(front: bytes, back: bytes)
    requires AT !in back
    ensures LastIndex(front + [AT] + back, AT) == |front|
  {
    var b := front + [AT] + back;
    assert b[|front|] == AT;
    forall j | |front| < j < |b| ensures b[j] != AT {
      assert b[j] == back[j - |front| - 1];
    }
  }

  lemma {:induction false} ParsedAddressText(env: Env, b: bytes)
    requires ParseAddress(env, b).Some?
    ensures var a := ParseAddress(env, b).value; ValidAddress(env, a) && AddressText(a) == b
  {
  }

  lemma {:induction false} AddressSound(env: Env, s: bytes)
    requires ReadAddress(env, s).Got? && ReadAddress(env, s).rest != []
    ensures var r := ReadAddress(env, s); Sendable(env, r.value) && s == EncodeAddress(r.value) + r.rest
  {
    SliceSound(s);
    ParsedAddressText(env, ReadSlice(s).value);
  }

  lemma {:induction false} AddressComplete(env: Env, a: Address, rest: bytes)
    requires Sendable(env, a)
    ensures ReadAddress(env, EncodeAddress(a) + rest) == Got(a, rest)
  {
    SliceComplete(AddressText(a), rest);
    AddressTextParses(env, a);
  }

  /** An address that may come next in a list. */
  predicate NewAddress(env: Env, acc: seq<Address>, a: Address) {
    Sendable(env, a) && Key(env, a) !in Keys(env, acc)
  }

  function NewAddressTest(env: Env): (seq<Address>, Address) -> bool {
    (acc, a) => NewAddress(env, acc, a)
  }

  lemma {:induction false} ListOkIsAllNew(env: Env, addrs: seq<Address>)
    ensures AllSendable(env, addrs) && Distinct(env, addrs) <==> AllOk(NewAddressTest(env), [], addrs)
  {
    forall k | 0 <= k < |addrs|
      ensures Key(env, addrs[k]) !in Keys(env, ([] + addrs[..k])) <==>
              forall i :: 0 <= i < k ==> Key(env, addrs[i]) != Key(env, addrs[k])
    {
      assert [] + addrs[..k] == addrs[..k];
      assert forall i :: 0 <= i < k ==> addrs[i] in addrs[..k];
    }
    if AllOk(NewAddressTest(env), [], addrs) {
      forall k | 0 <= k < |addrs| ensures NewAddress(env, [] + addrs[..k], addrs[k]) {
        assert NewAddressTest(env)([] + addrs[..k], addrs[k]);
      }
    }
  }

  lemma {:induction false} AddressReaderSound(env: Env, refuse: bool)
    ensures Sound(AddressReader(env, refuse), EncodeAddress, NewAddressTest(env), false)
  {
    forall acc: seq<Address>, s: bytes
      | AddressReader(env, refuse)(acc, s).Got? && AddressReader(env, refuse)(acc, s).rest != []
      ensures var r := AddressReader(env, refuse)(acc, s);
        NewAddressTest(env)(acc, r.value) && s == EncodeAddress(r.value) + r.rest
    {
      AddressSound(env, s);
    }
  }

  lemma {:induction false} AddressReaderComplete(env: Env, refuse: bool)
    ensures Complete(AddressReader(env, refuse), EncodeAddress, NewAddressTest(env))
  {
    forall acc: seq<Address>, a: Address, rest: bytes | NewAddressTest(env)(acc, a)
      ensures AddressReader(env, refuse)(acc, EncodeAddress(a) + rest) == Got(a, rest)
    {
      AddressComplete(env, a, rest);
    }
  }

  /** A counted list of addresses, as _to_ and _add to_ both are. */
  function ReadList(env: Env, refuse: bool, s: bytes): Parse<seq<Address>> {
    var (n, s) :- ReadByte(s);
    if n == 0 then Refuse(INVALID) else ReadAddresses(env, n, [], refuse, s)
  }

  lemma {:induction false} AddressListSound(env: Env, refuse: bool, s: bytes)
    requires ReadList(env, refuse, s).Got? && ReadList(env, refuse, s).rest != []
    ensures var r := ReadList(env, refuse, s); ListOk(env, r.value) && s == EncodeAddressList(r.value) + r.rest
  {
    AddressReaderSound(env, refuse);
    ListSound(AddressReader(env, refuse), EncodeAddress, NewAddressTest(env), false, s);
    ListOkIsAllNew(env, ReadList(env, refuse, s).value);
  }

  lemma {:induction false} AddressListComplete(env: Env, refuse: bool, addrs: seq<Address>, rest: bytes)
    requires ListOk(env, addrs)
    ensures ReadList(env, refuse, EncodeAddressList(addrs) + rest) == Got(addrs, rest)
  {
    ListOkIsAllNew(env, addrs);
    AddressReaderComplete(env, refuse);
    ListComplete(AddressReader(env, refuse), EncodeAddress, NewAddressTest(env), addrs, rest);
  }

  function EncodeAddToPart(f: Flags, x: AddTo): bytes
    requires f.hasAddTo ==> x.from.Some?
  {
    if f.hasAddTo then EncodeAddress(x.from.value) + EncodeAddressList(x.addrs) else []
  }

  lemma {:induction false} AddToSound(env: Env, f: Flags, from: Address, to: seq<Address>, s: bytes)
    requires ReadAddTo(env, f, from, to, s).Got? && ReadAddTo(env, f, from, to, s).rest != []
    ensures var r := ReadAddTo(env, f, from, to, s);
      AddToOk(env, f, from, to, r.value) && s == EncodeAddToPart(f, r.value) + r.rest
  {
    if f.hasAddTo {
      var a := ReadAddress(env, s);
      AddressSound(env, s);
      AddressListSound(env, true, a.rest);
      var l := ReadList(env, true, a.rest);
      Assoc(EncodeAddress(a.value), EncodeAddressList(l.value), l.rest);
    }
  }

  lemma {:induction false} AddToComplete(env: Env, f: Flags, from: Address, to: seq<Address>, x: AddTo, rest: bytes)
    requires AddToOk(env, f, from, to, x)
    ensures ReadAddTo(env, f, from, to, EncodeAddToPart(f, x) + rest) == Got(x, rest)
  {
    if f.hasAddTo {
      Assoc(EncodeAddress(x.from.value), EncodeAddressList(x.addrs), rest);
      AddressComplete(env, x.from.value, EncodeAddressList(x.addrs) + rest);
      AddressListComplete(env, true, x.addrs, rest);
    } else {
      assert EncodeAddToPart(f, x) + rest == rest;
    }
  }

  // ---- lead ----

  function EncodeLeadPart(l: Lead): bytes {
    [1, FlagsByte(l.flags)] + (if l.flags.hasPid then l.pid else [])
  }

  lemma {:induction false} LeadSound(s: bytes)
    requires ReadLead(s).Got? && ReadLead(s).rest != []
    ensures var r := ReadLead(s); LeadOk(r.value) && s == EncodeLeadPart(r.value) + r.rest
  {
    ByteRoundTrip(s[1]);
    var t := s[2..];
    assert s == [s[0], s[1]] + t;
    assert s[1..][1..] == t;
    if ByteFlags(s[1]).hasPid {
      assert t == t[..32] + t[32..];
      assert Padded(t[..32]) == t[..32];
    }
  }

  lemma {:induction false} LeadComplete(l: Lead, rest: bytes)
    requires LeadOk(l)
    ensures ReadLead(EncodeLeadPart(l) + rest) == Got(l, rest)
  {
    var s := EncodeLeadPart(l) + rest;
    FlagsRoundTrip(l.flags);
    var t := (if l.flags.hasPid then l.pid else []) + rest;
    assert s[1..][1..] == t;
    if l.flags.hasPid {
      Front(l.pid, rest);
      assert Padded(l.pid) == l.pid;
    } else {
      assert t == rest;
    }
  }

  // ---- content fields ----

  lemma {:induction false} TypeSound(env: Env, common: bool, s: bytes)
    requires ReadType(env, common, s).Got? && ReadType(env, common, s).rest != []
    ensures var r := ReadType(env, common, s);
      TypeOk(env, common, r.value) && s == EncodeType(common, r.value.id, r.value.name) + r.rest
  {
    if !common { SliceSound(s); }
  }

  lemma {:induction false} TypeComplete(env: Env, common: bool, t: MediaType, rest: bytes)
    requires TypeOk(env, common, t)
    ensures ReadType(env, common, EncodeType(common, t.id, t.name) + rest) == Got(t, rest)
  {
    if common {
      assert ([t.id] + rest)[1..] == rest;
    } else {
      SliceComplete(t.name, rest);
    }
  }

  lemma {:induction false} SizesSound(deflate: bool, s: bytes)
    requires ReadSizes(deflate, s).Got?
    ensures var r := ReadSizes(deflate, s);
      SizesOk(deflate, r.value) && s == EncodeSizes(deflate, r.value.wire, r.value.expanded) + r.rest
  {
    U32Sound(s);
    var t := ReadU32(s);
    if deflate {
      U32Sound(t.rest);
      Assoc(LE32(t.value), LE32(ReadU32(t.rest).value), ReadU32(t.rest).rest);
    }
  }

  lemma {:induction false} SizesComplete(deflate: bool, z: Sizes, rest: bytes)
    requires SizesOk(deflate, z)
    ensures ReadSizes(deflate, EncodeSizes(deflate, z.wire, z.expanded) + rest) == Got(z, rest)
  {
    var tail := (if deflate then LE32(z.expanded) else []) + rest;
    Assoc(LE32(z.wire), if deflate then LE32(z.expanded) else [], rest);
    U32Complete(z.wire, tail);
    if deflate {
      U32Complete(z.expanded, rest);
    } else {
      assert tail == rest;
    }
  }

  lemma {:induction false} SizesNonEmpty(deflate: bool, s: bytes)
    requires ReadSizes(deflate, s).Got?
    ensures s != []
  {
  }

  function EncodeAttachmentLead(l: AttachmentLead): bytes {
    [AttachmentFlagsByte(l.flags)] + EncodeType(l.flags.commonType, l.mediaType.id, l.mediaType.name) +
    Prefixed(l.filename)
  }

  lemma {:induction false} AttachmentLeadSound(env: Env, acc: seq<Attachment>, s: bytes)
    requires ReadAttachmentLead(env, acc, s).Got? && ReadAttachmentLead(env, acc, s).rest != []
    ensures var r := ReadAttachmentLead(env, acc, s);
      r.value.flags.reserved == 0 && TypeOk(env, r.value.flags.commonType, r.value.mediaType) &&
      ValidFilename(env, r.value.filename) && env.fold(r.value.filename) !in Names(env, acc) &&
      s == EncodeAttachmentLead(r.value) + r.rest
  {
    var f := ByteAttachmentFlags(s[0]);
    var s1 := s[1..];
    var t := ReadType(env, f.commonType, s1);
    var name := ReadSlice(t.rest);
    assert TypeOk(env, f.commonType, t.value) &&
           s1 == EncodeType(f.commonType, t.value.id, t.value.name) + t.rest by { TypeSound(env, f.commonType, s1); }
    assert t.rest == Prefixed(name.value) + name.rest by { SliceSound(t.rest); }
    assert s == [s[0]] + s1;
    var b, c := EncodeType(f.commonType, t.value.id, t.value.name), Prefixed(name.value);
    assert s == [s[0]] + b + c + name.rest by { Chain3(s, [s[0]], s1, b, t.rest, c, name.rest); }
  }

  lemma {:induction false} Chain3(s: bytes, a: bytes, s1: bytes, b: bytes, s2: bytes, c: bytes, rest: bytes)
    requires s == a + s1 && s1 == b + s2 && s2 == c + rest
    ensures s == a + b + c + rest
  {
    Assoc(a, b, s2);
    Assoc(a + b, c, rest);
  }

  lemma {:induction false} AttachmentSound(env: Env, acc: seq<Attachment>, s: bytes)
    requires ReadAttachment(env, acc, s).Got?
    ensures var r := ReadAttachment(env, acc, s);
      NewAttachment(env, acc, r.value) && s == EncodeAttachment(r.value) + r.rest
  {
    var l := ReadAttachmentLead(env, acc, s);
    var z := ReadSizes(l.value.flags.deflate, l.rest);
    SizesNonEmpty(l.value.flags.deflate, l.rest);
    SizesSound(l.value.flags.deflate, l.rest);
    AttachmentLeadSound(env, acc, s);
    Assoc(EncodeAttachmentLead(l.value),
          EncodeSizes(l.value.flags.deflate, z.value.wire, z.value.expanded), z.rest);
  }

  lemma {:induction false} AttachmentComplete(env: Env, acc: seq<Attachment>, a: Attachment, rest: bytes)
    requires AttachmentOk(env, a) && env.fold(a.filename) !in Names(env, acc)
    ensures ReadAttachment(env, acc, EncodeAttachment(a) + rest) == Got(a, rest)
  {
    AttachmentFlagsRoundTrip(a.flags);
    var fb: bytes := [AttachmentFlagsByte(a.flags)];
    var et := EncodeType(a.flags.commonType, a.typeID, a.mediaType);
    var en := Prefixed(a.filename);
    var ez := EncodeSizes(a.flags.deflate, a.size, a.expandedSize);
    Assoc(fb + et + en, ez, rest);
    Assoc(fb + et, en, ez + rest);
    Assoc(fb, et, en + (ez + rest));
    assert (fb + (et + (en + (ez + rest))))[1..] == et + (en + (ez + rest));
    TypeComplete(env, a.flags.commonType, MediaType(a.typeID, a.mediaType), en + (ez + rest));
    SliceComplete(a.filename, ez + rest);
    SizesComplete(a.flags.deflate, Sizes(a.size, a.expandedSize), rest);
  }

  predicate NewAttachment(env: Env, acc: seq<Attachment>, a: Attachment) {
    AttachmentOk(env, a) && env.fold(a.filename) !in Names(env, acc)
  }

  function NewAttachmentTest(env: Env): (seq<Attachment>, Attachment) -> bool {
    (acc, a) => NewAttachment(env, acc, a)
  }

  lemma {:induction false} AttachmentsOkIsAllNew(env: Env, atts: seq<Attachment>)
    ensures (forall a :: a in atts ==> AttachmentOk(env, a)) && DistinctNames(env, atts) <==>
            AllOk(NewAttachmentTest(env), [], atts)
  {
    forall k | 0 <= k < |atts|
      ensures env.fold(atts[k].filename) !in Names(env, ([] + atts[..k])) <==>
              forall i :: 0 <= i < k ==> env.fold(atts[i].filename) != env.fold(atts[k].filename)
    {
      assert [] + atts[..k] == atts[..k];
      assert forall i :: 0 <= i < k ==> atts[i] in atts[..k];
    }
    if AllOk(NewAttachmentTest(env), [], atts) {
      forall k | 0 <= k < |atts| ensures NewAttachment(env, [] + atts[..k], atts[k]) {
        assert NewAttachmentTest(env)([] + atts[..k], atts[k]);
      }
    }
  }

  lemma {:induction false} AttachmentReaderSound(env: Env)
    ensures Sound(AttachmentReader(env), EncodeAttachment, NewAttachmentTest(env), true)
  {
    forall acc: seq<Attachment>, s: bytes | AttachmentReader(env)(acc, s).Got?
      ensures var r := AttachmentReader(env)(acc, s);
        NewAttachmentTest(env)(acc, r.value) && s == EncodeAttachment(r.value) + r.rest
    {
      AttachmentSound(env, acc, s);
    }
  }

  lemma {:induction false} AttachmentReaderComplete(env: Env)
    ensures Complete(AttachmentReader(env), EncodeAttachment, NewAttachmentTest(env))
  {
    forall acc: seq<Attachment>, a: Attachment, rest: bytes | NewAttachmentTest(env)(acc, a)
      ensures AttachmentReader(env)(acc, EncodeAttachment(a) + rest) == Got(a, rest)
    {
      AttachmentComplete(env, acc, a, rest);
    }
  }

  lemma {:induction false} AttachmentListSound(env: Env, deflate: bool, z: Sizes, s: bytes)
    requires ReadAttachmentList(env, deflate, z, s).Got?
    ensures var r := ReadAttachmentList(env, deflate, z, s);
      AttachmentsOk(env, r.value) && TotalsFit(env, deflate, z, r.value) &&
      s == EncodeAttachmentList(r.value) + r.rest
  {
    AttachmentReaderSound(env);
    ListSound(AttachmentReader(env), EncodeAttachment, NewAttachmentTest(env), true, s);
    AttachmentsOkIsAllNew(env, ReadAttachmentList(env, deflate, z, s).value);
  }

  lemma {:induction false} AttachmentListComplete(env: Env, deflate: bool, z: Sizes, atts: seq<Attachment>, rest: bytes)
    requires AttachmentsOk(env, atts) && TotalsFit(env, deflate, z, atts)
    ensures ReadAttachmentList(env, deflate, z, EncodeAttachmentList(atts) + rest) == Got(atts, rest)
  {
    AttachmentsOkIsAllNew(env, atts);
    AttachmentReaderComplete(env);
    ListComplete(AttachmentReader(env), EncodeAttachment, NewAttachmentTest(env), atts, rest);
  }

  // ---- the whole header ----

  function EncodeRoutingPart(r: Routing): bytes
    requires r.lead.flags.hasAddTo ==> r.addTo.from.Some?
  {
    EncodeLeadPart(r.lead) + EncodeAddress(r.from) + EncodeAddressList(r.to) + EncodeAddToPart(r.lead.flags, r.addTo)
  }

  function EncodeTopicPart(f: Flags, topic: bytes): bytes {
    if f.hasPid then [] else Prefixed(topic)
  }

  function EncodeDescriptionPart(f: Flags, d: Description): bytes {
    d.time + EncodeTopicPart(f, d.topic) + EncodeType(f.commonType, d.mediaType.id, d.mediaType.name)
  }

  function EncodePayloadsPart(f: Flags, p: Payloads): bytes {
    EncodeSizes(f.deflate, p.sizes.wire, p.sizes.expanded) + EncodeAttachmentList(p.atts)
  }

  lemma {:induction false} Assoc4(a: bytes, b: bytes, c: bytes, d: bytes, rest: bytes)
    ensures a + b + c + d + rest == a + (b + (c + (d + rest)))
  {
    Assoc(a + b + c, d, rest);
    Assoc(a + b, c, d + rest);
    Assoc(a, b, c + (d + rest));
  }

  /** Consecutive reads consume consecutive parts. */
  lemma {:induction false} Chain4(s: bytes, a: bytes, s1: bytes, b: bytes, s2: bytes, c: bytes, s3: bytes, d: bytes,
                                  rest: bytes)
    requires s == a + s1 && s1 == b + s2 && s2 == c + s3 && s3 == d + rest
    ensures s == a + b + c + d + rest
  {
    Assoc4(a, b, c, d, rest);
  }

  /** From an empty stream an add-to part is read only as absent. */
  lemma {:induction false} NoAddToRead(env: Env, f: Flags, from: Address, to: seq<Address>)
    ensures var r := ReadAddTo(env, f, from, to, []); r.Got? ==> r.rest == []
  {
    NothingToRead(env, false);
  }

  lemma {:induction false} RoutingSound(env: Env, s: bytes)
    requires ReadRouting(env, s).Got? && ReadRouting(env, s).rest != []
    ensures var r := ReadRouting(env, s); RoutingOk(env, r.value) && s == EncodeRoutingPart(r.value) + r.rest
  {
    var r := ReadRouting(env, s);
    var lead := ReadLead(s);
    var from := ReadAddress(env, lead.rest);
    var to := ReadTo(env, from.rest);
    var addTo := ReadAddTo(env, lead.value.flags, from.value, to.value, to.rest);
    assert to.rest != [] by { NoAddToRead(env, lead.value.flags, from.value, to.value); }
    assert from.rest != [] && lead.rest != [] by { NothingToRead(env, false); }
    assert s == EncodeLeadPart(lead.value) + lead.rest && LeadOk(lead.value) by { LeadSound(s); }
    assert lead.rest == EncodeAddress(from.value) + from.rest && Sendable(env, from.value) by {
      AddressSound(env, lead.rest);
    }
    assert from.rest == EncodeAddressList(to.value) + to.rest && ListOk(env, to.value) by {
      assert ReadTo(env, from.rest) == ReadList(env, false, from.rest);
      AddressListSound(env, false, from.rest);
    }
    assert AddToOk(env, lead.value.flags, from.value, to.value, addTo.value) &&
           to.rest == EncodeAddToPart(lead.value.flags, addTo.value) + r.rest by {
      AddToSound(env, lead.value.flags, from.value, to.value, to.rest);
    }
    Chain4(s, EncodeLeadPart(lead.value), lead.rest, EncodeAddress(from.value), from.rest,
           EncodeAddressList(to.value), to.rest, EncodeAddToPart(lead.value.flags, addTo.value), r.rest);
  }

  lemma {:induction false} RoutingComplete(env: Env, r: Routing, rest: bytes)
    requires RoutingOk(env, r)
    ensures ReadRouting(env, EncodeRoutingPart(r) + rest) == Got(r, rest)
  {
    var f := r.lead.flags;
    var l, a := EncodeLeadPart(r.lead), EncodeAddress(r.from);
    var t, x := EncodeAddressList(r.to), EncodeAddToPart(f, r.addTo);
    Assoc4(l, a, t, x, rest);
    LeadComplete(r.lead, a + (t + (x + rest)));
    AddressComplete(env, r.from, t + (x + rest));
    assert ReadTo(env, t + (x + rest)) == ReadList(env, false, t + (x + rest));
    AddressListComplete(env, false, r.to, x + rest);
    AddToComplete(env, f, r.from, r.to, r.addTo, rest);
  }

  lemma {:induction false} TopicSound(f: Flags, s: bytes)
    requires ReadTopic(f, s).Got? && ReadTopic(f, s).rest != []
    ensures var r := ReadTopic(f, s);
      (if f.hasPid then r.value == [] else |r.value| < 256) && s == EncodeTopicPart(f, r.value) + r.rest
  {
    if !f.hasPid { SliceSound(s); }
  }

  lemma {:induction false} TopicComplete(f: Flags, topic: bytes, rest: bytes)
    requires if f.hasPid then topic == [] else |topic| < 256
    ensures ReadTopic(f, EncodeTopicPart(f, topic) + rest) == Got(topic, rest)
  {
    if f.hasPid {
      assert EncodeTopicPart(f, topic) + rest == rest;
    } else {
      SliceComplete(topic, rest);
    }
  }

  lemma {:induction false} TimeSound(env: Env, s: bytes)
    requires ReadTime(env, s).Got?
    ensures var r := ReadTime(env, s); TimeOk(env, r.value) && s == r.value + r.rest
  {
  }

  /** No media type and no address can be read from an empty stream. */
  lemma {:induction false} NothingToRead(env: Env, common: bool)
    ensures !ReadType(env, common, []).Got? && !ReadAddress(env, []).Got? && !ReadTo(env, []).Got?
  {
  }

  lemma {:induction false} DescriptionSound(env: Env, f: Flags, s: bytes)
    requires ReadDescription(env, f, s).Got? && ReadDescription(env, f, s).rest != []
    ensures var r := ReadDescription(env, f, s);
      s != [] && DescriptionOk(env, f, r.value) && s == EncodeDescriptionPart(f, r.value) + r.rest
  {
    var time := ReadTime(env, s);
    var topic := ReadTopic(f, time.rest);
    var t := ReadType(env, f.commonType, topic.rest);
    assert topic.rest != [] by { NothingToRead(env, f.commonType); }
    assert s == time.value + time.rest && TimeOk(env, time.value) by { TimeSound(env, s); }
    assert (if f.hasPid then topic.value == [] else |topic.value| < 256) &&
           time.rest == EncodeTopicPart(f, topic.value) + topic.rest by { TopicSound(f, time.rest); }
    assert TypeOk(env, f.commonType, t.value) &&
           topic.rest == EncodeType(f.commonType, t.value.id, t.value.name) + t.rest by {
      TypeSound(env, f.commonType, topic.rest);
    }
    var a, b, c := time.value, EncodeTopicPart(f, topic.value), EncodeType(f.commonType, t.value.id, t.value.name);
    Chain4(s, a, time.rest, b, topic.rest, c, t.rest, [], t.rest);
    assert a + b + c + [] == a + b + c;
  }

  lemma {:induction false} DescriptionComplete(env: Env, f: Flags, d: Description, rest: bytes)
    requires DescriptionOk(env, f, d)
    ensures ReadDescription(env, f, EncodeDescriptionPart(f, d) + rest) == Got(d, rest)
  {
    var a, b, c := d.time, EncodeTopicPart(f, d.topic), EncodeType(f.commonType, d.mediaType.id, d.mediaType.name);
    Assoc(a + b, c, rest);
    Assoc(a, b, c + rest);
    Front(a, b + (c + rest));
    TopicComplete(f, d.topic, c + rest);
    TypeComplete(env, f.commonType, d.mediaType, rest);
  }

  lemma {:induction false} PayloadsSound(env: Env, f: Flags, s: bytes)
    requires ReadPayloads(env, f, s).Got?
    ensures var r := ReadPayloads(env, f, s);
      s != [] && PayloadsOk(env, f, r.value) && s == EncodePayloadsPart(f, r.value) + r.rest
  {
    var z := ReadSizes(f.deflate, s);
    var atts := ReadAttachmentList(env, f.deflate, z.value, z.rest);
    SizesNonEmpty(f.deflate, s);
    SizesSound(f.deflate, s);
    AttachmentListSound(env, f.deflate, z.value, z.rest);
    Assoc(EncodeSizes(f.deflate, z.value.wire, z.value.expanded), EncodeAttachmentList(atts.value), atts.rest);
  }

  lemma {:induction false} PayloadsComplete(env: Env, f: Flags, p: Payloads, rest: bytes)
    requires PayloadsOk(env, f, p)
    ensures ReadPayloads(env, f, EncodePayloadsPart(f, p) + rest) == Got(p, rest)
  {
    var d, e := EncodeSizes(f.deflate, p.sizes.wire, p.sizes.expanded), EncodeAttachmentList(p.atts);
    Assoc(d, e, rest);
    SizesComplete(f.deflate, p.sizes, e + rest);
    AttachmentListComplete(env, f.deflate, p.sizes, p.atts, rest);
  }

  lemma {:induction false} EncodeParts(env: Env, h: Header)
    requires h.version == 1 && AddToOk(env, h.flags, h.from, h.to, AddTo(h.addToFrom, h.addTo))
    ensures Encode(h) == EncodeRoutingPart(RoutingOf(h)) + EncodeDescriptionPart(h.flags, DescriptionOf(h)) +
                         EncodePayloadsPart(h.flags, PayloadsOf(h))
  {
  }

  /** Reading accepts h, leaving rest, exactly when h is well-formed and the
      stream is its encoding followed by rest. So nothing read short is ever
      accepted, and what was accepted re-encodes to the bytes consumed. */
  lemma {:induction false} HeaderCodec(env: Env, s: bytes, h: Header, rest: bytes)
    ensures ReadHeader(env, s) == Got(h, rest) <==> WellFormed(env, h) && s == Encode(h) + rest
  {
    if ReadHeader(env, s) == Got(h, rest) {
      HeaderSound(env, s);
    }
    if WellFormed(env, h) && s == Encode(h) + rest {
      HeaderComplete(env, h, rest);
    }
  }

  lemma {:induction false} HeaderSound(env: Env, s: bytes)
    requires ReadHeader(env, s).Got?
    ensures var r := ReadHeader(env, s); WellFormed(env, r.value) && s == Encode(r.value) + r.rest
  {
    var r := ReadRouting(env, s);
    var f := r.value.lead.flags;
    var d := ReadDescription(env, f, r.rest);
    var p := ReadPayloads(env, f, d.rest);
    PayloadsSound(env, f, d.rest);
    DescriptionSound(env, f, r.rest);
    RoutingSound(env, s);
    var h := ReadHeader(env, s).value;
    assert RoutingOf(h) == r.value && DescriptionOf(h) == d.value && PayloadsOf(h) == p.value;
    EncodeParts(env, h);
    Chain4(s, EncodeRoutingPart(r.value), r.rest, EncodeDescriptionPart(f, d.value), d.rest,
           EncodePayloadsPart(f, p.value), p.rest, [], p.rest);
    assert Encode(h) + [] == Encode(h);
  }

  lemma {:induction false} HeaderComplete(env: Env, h: Header, rest: bytes)
    requires WellFormed(env, h)
    ensures ReadHeader(env, Encode(h) + rest) == Got(h, rest)
  {
    var f := h.flags;
    var a, b := EncodeRoutingPart(RoutingOf(h)), EncodeDescriptionPart(f, DescriptionOf(h));
    var c := EncodePayloadsPart(f, PayloadsOf(h));
    EncodeParts(env, h);
    Assoc(a + b, c, rest);
    Assoc(a, b, c + rest);
    RoutingComplete(env, RoutingOf(h), b + (c + rest));
    DescriptionComplete(env, f, DescriptionOf(h), c + rest);
    PayloadsComplete(env, f, PayloadsOf(h), rest);
  }

  /** No encoding of a well-formed header is a prefix of another's: two streams
      that begin with encodings and agree, agree on header and remainder. */
  lemma {:induction false} EncodePrefixFree(env: Env, h: Header, rest: bytes, h': Header, rest': bytes)
    requires WellFormed(env, h) && WellFormed(env, h')
    requires Encode(h) + rest == Encode(h') + rest'
    ensures h == h' && rest == rest'
  {
    HeaderCodec(env, Encode(h) + rest, h, rest);
    HeaderCodec(env, Encode(h) + rest, h', rest');
  }

  /** The hash the receiver takes of the parsed header is the hash of the very
      bytes it consumed. */
  lemma {:induction false} HeaderHashOfConsumed(env: Env, hash: bytes -> bytes, s: bytes)
    requires ReadHeader(env, s).Got?
    ensures var r := ReadHeader(env, s);
      |r.rest| <= |s| && hash(Encode(r.value)) == hash(s[..|s| - |r.rest|])
  {
    var r := ReadHeader(env, s);
    HeaderCodec(env, s, r.value, r.rest);
    Front(Encode(r.value), r.rest);
  }
}
