/** What the header reader of cmd/fmsgd/host.go computes from a byte stream. */
module Parser {
  import opened Prelude
  import opened Many
  import opened Header

  /** Host configuration, and the library calls the reader relies on. `fold` is
      the case folding used to compare addresses, domains and filenames;
      `userText` and `fileText` are the Unicode tests on user and file names;
      `clock` reads the eight time bytes as seconds. */
  datatype Env = Env(domain: bytes, fold: bytes -> bytes, userText: bytes -> bool, fileText: bytes -> bool,
                     media: map<byte, bytes>, clock: bytes -> real, now: real,
                     pastDelta: real, futureDelta: real, maxSize: u32, maxExpanded: u32)

  const INVALID: byte := 1
  const TOO_BIG: byte := 4
  const PAST_TIME: byte := 7
  const FUTURE_TIME: byte := 8

  // ---- primitive reads ----

  function ReadByte(s: bytes): Parse<byte> {
    if s == [] then Stop else Got(s[0], s[1..])
  }

  /** binary.Read: all n bytes or an error. */
  function ReadFull(n: nat, s: bytes): Parse<bytes> {
    if |s| < n then Stop else Got(s[..n], s[n..])
  }

  /** io.ReadAll over a LimitReader: a short stream is not an error. */
  function ReadUpTo(n: nat, s: bytes): Parse<bytes> {
    if |s| < n then Got(s, []) else Got(s[..n], s[n..])
  }

  function ReadSlice(s: bytes): Parse<bytes> {
    var (n, s) :- ReadByte(s);
    ReadUpTo(n, s)
  }

  function ReadU32(s: bytes): Parse<u32> {
    var (b, s) :- ReadFull(4, s);
    Got(FromLE32(b), s)
  }

  // ---- addresses ----

  const DOT: byte := 46
  const DASH: byte := 45
  const LOCALHOST: bytes := [108, 111, 99, 97, 108, 104, 111, 115, 116]

  /** strings.Split(d, "."). */
  function Labels(d: bytes): (labels: seq<bytes>)
    ensures |labels| >= 1
  {
    if d == [] then [[]]
    else
      var rest := Labels(d[1..]);
      if d[0] == DOT then [[]] + rest else [[d[0]] + rest[0]] + rest[1..]
  }

  predicate LabelByte(c: byte) {
    97 <= c <= 122 || 65 <= c <= 90 || 48 <= c <= 57 || c == DASH
  }

  predicate ValidLabel(l: bytes) {
    0 < |l| <= 63 && l[0] != DASH && l[|l| - 1] != DASH && forall c :: c in l ==> LabelByte(c)
  }

  predicate ValidDomain(d: bytes) {
    0 < |d| <= 253 &&
    (d == LOCALHOST || (|Labels(d)| >= 2 && forall l :: l in Labels(d) ==> ValidLabel(l)))
  }

  predicate ValidUser(env: Env, u: bytes) {
    0 < |u| <= 64 && env.userText(u)
  }

  predicate ValidAddress(env: Env, a: Address) {
    ValidUser(env, a.user) && ValidDomain(a.domain)
  }

  /** The last position of c in b, or -1. */
  function LastIndex(b: bytes, c: byte): (i: int)
    ensures -1 <= i < |b|
    ensures i >= 0 ==> b[i] == c
    ensures forall j :: i < j < |b| ==> b[j] != c
  {
    if b == [] then -1
    else if b[|b| - 1] == c then |b| - 1
    else LastIndex(b[..|b| - 1], c)
  }

  function ParseAddress(env: Env, b: bytes): Option<Address> {
    if |b| < 4 || b[0] != AT then None
    else
      var at := LastIndex(b, AT);
      if at <= 0 then None
      else
        var a := Address(b[1..at], b[at + 1..]);
        if ValidAddress(env, a) then Some(a) else None
  }

  function ReadAddress(env: Env, s: bytes): Parse<Address> {
    var (b, s) :- ReadSlice(s);
    match ParseAddress(env, b)
    case Some(a) => Got(a, s)
    case None => Stop
  }

  function Key(env: Env, a: Address): bytes { env.fold(AddressText(a)) }

  function Keys(env: Env, addrs: seq<Address>): set<bytes> {
    set a | a in addrs :: Key(env, a)
  }

  /** One more address of a list. A repeated one ends the connection, with a
      response only in the add-to list. */
  function ReadNewAddress(env: Env, refuse: bool, acc: seq<Address>, s: bytes): Parse<Address> {
    var (a, s) :- ReadAddress(env, s);
    if Key(env, a) !in Keys(env, acc) then Got(a, s)
    else if refuse then Refuse(INVALID) else Stop
  }

  function AddressReader(env: Env, refuse: bool): Reader<Address> {
    (acc, s) => ReadNewAddress(env, refuse, acc, s)
  }

  /** The n addresses after those in acc. */
  function ReadAddresses(env: Env, n: nat, acc: seq<Address>, refuse: bool, s: bytes): Parse<seq<Address>> {
    ReadMany(AddressReader(env, refuse), n, acc, s)
  }

  lemma {:induction false} ReadAddressesStep(env: Env, n: nat, acc: seq<Address>, refuse: bool, s: bytes)
    requires n > 0
    ensures ReadAddresses(env, n, acc, refuse, s) == match ReadNewAddress(env, refuse, acc, s)
      case Got(a, rest) => ReadAddresses(env, n - 1, acc + [a], refuse, rest)
      case Refuse(code) => Refuse(code)
      case Stop => Stop
  {
    ManyStep(AddressReader(env, refuse), n, acc, s);
  }

  function ReadTo(env: Env, s: bytes): Parse<seq<Address>> {
    var (n, s) :- ReadByte(s);
    if n == 0 then Refuse(INVALID) else ReadAddresses(env, n, [], false, s)
  }

  predicate InFromOrTo(env: Env, a: Address, from: Address, to: seq<Address>) {
    Key(env, a) == Key(env, from) || Key(env, a) in Keys(env, to)
  }

  datatype AddTo = AddTo(from: Option<Address>, addrs: seq<Address>)

  function ReadAddTo(env: Env, f: Flags, from: Address, to: seq<Address>, s: bytes): Parse<AddTo> {
    if !f.hasAddTo then Got(AddTo(None, []), s)
    else if !f.hasPid then Refuse(INVALID)
    else
      match ReadAddress(env, s)
      case Refuse(_) => Refuse(INVALID)
      case Stop => Refuse(INVALID)
      case Got(a, s) =>
        if !InFromOrTo(env, a, from, to) then Refuse(INVALID)
        else
          var (n, s) :- ReadByte(s);
          if n == 0 then Refuse(INVALID)
          else
            var (addrs, s) :- ReadAddresses(env, n, [], true, s);
            Got(AddTo(Some(a), addrs), s)
  }

  // ---- header fields ----

  datatype Lead = Lead(flags: Flags, pid: bytes)

  /** copy(make([]byte, 32), pid) */
  function Padded(pid: bytes): bytes
    requires |pid| <= 32
  {
    pid + seq(32 - |pid|, i => 0)
  }

  /** Version, flags and pid. The version byte 255 is a challenge and is not a
      message header. */
  function ReadLead(s: bytes): Parse<Lead> {
    var (v, s) :- ReadByte(s);
    if v != 1 then Stop
    else
      var (b, s) :- ReadByte(s);
      var f := ByteFlags(b);
      if f.reserved || (f.hasAddTo && f.terminal) then Refuse(INVALID)
      else if !f.hasPid then Got(Lead(f, []), s)
      else
        var (pid, s) :- ReadUpTo(32, s);
        Got(Lead(f, Padded(pid)), s)
  }

  predicate TooOld(env: Env, time: bytes) {
    env.pastDelta > 0.0 && env.now - env.clock(time) > env.pastDelta
  }

  predicate TooNew(env: Env, time: bytes) {
    env.futureDelta > 0.0 && env.clock(time) - env.now > env.futureDelta
  }

  function ReadTime(env: Env, s: bytes): Parse<bytes> {
    var (t, s) :- ReadFull(8, s);
    if TooOld(env, t) then Refuse(PAST_TIME)
    else if TooNew(env, t) then Refuse(FUTURE_TIME)
    else Got(t, s)
  }

  function ReadTopic(f: Flags, s: bytes): Parse<bytes> {
    if f.hasPid then Got([], s) else ReadSlice(s)
  }

  datatype MediaType = MediaType(id: byte, name: bytes)

  predicate Ascii(b: bytes) { forall c :: c in b ==> c <= 127 }

  function ReadType(env: Env, common: bool, s: bytes): Parse<MediaType> {
    if common then
      var (id, s) :- ReadByte(s);
      if id in env.media then Got(MediaType(id, env.media[id]), s) else Refuse(INVALID)
    else
      var (name, s) :- ReadSlice(s);
      if Ascii(name) then Got(MediaType(0, name), s) else Refuse(INVALID)
  }

  datatype Sizes = Sizes(wire: u32, expanded: u32)

  function ReadSizes(deflate: bool, s: bytes): Parse<Sizes> {
    var (n, s) :- ReadU32(s);
    if deflate then
      var (m, s) :- ReadU32(s);
      Got(Sizes(n, m), s)
    else Got(Sizes(n, 0), s)
  }

  predicate ValidFilename(env: Env, name: bytes) {
    0 < |name| < 256 && env.fileText(name)
  }

  function Names(env: Env, atts: seq<Attachment>): set<bytes> {
    set a | a in atts :: env.fold(a.filename)
  }

  datatype AttachmentLead = AttachmentLead(flags: AttachmentFlags, mediaType: MediaType, filename: bytes)

  function ReadAttachmentLead(env: Env, acc: seq<Attachment>, s: bytes): Parse<AttachmentLead> {
    var (b, s) :- ReadByte(s);
    var f := ByteAttachmentFlags(b);
    if f.reserved != 0 then Refuse(INVALID)
    else
      var (t, s) :- ReadType(env, f.commonType, s);
      var (name, s) :- ReadSlice(s);
      if !ValidFilename(env, name) || env.fold(name) in Names(env, acc) then Refuse(INVALID)
      else Got(AttachmentLead(f, t, name), s)
  }

  function ReadAttachment(env: Env, acc: seq<Attachment>, s: bytes): Parse<Attachment> {
    var (l, s) :- ReadAttachmentLead(env, acc, s);
    var (sizes, s) :- ReadSizes(l.flags.deflate, s);
    Got(Attachment(l.flags, l.mediaType.id, l.mediaType.name, l.filename, sizes.wire, sizes.expanded), s)
  }

  function AttachmentReader(env: Env): Reader<Attachment> {
    (acc, s) => ReadAttachment(env, acc, s)
  }

  function ReadAttachments(env: Env, n: nat, acc: seq<Attachment>, s: bytes): Parse<seq<Attachment>> {
    ReadMany(AttachmentReader(env), n, acc, s)
  }

  lemma {:induction false} ReadAttachmentsStep(env: Env, n: nat, acc: seq<Attachment>, s: bytes)
    requires n > 0
    ensures ReadAttachments(env, n, acc, s) == match ReadAttachment(env, acc, s)
      case Got(a, rest) => ReadAttachments(env, n - 1, acc + [a], rest)
      case Refuse(code) => Refuse(code)
      case Stop => Stop
  {
    ManyStep(AttachmentReader(env), n, acc, s);
  }

  /** The uint32 running total of wire sizes, wrapping as the source's does. */
  function WrappedWire(start: u32, atts: seq<Attachment>): u32 {
    if atts == [] then start
    else (WrappedWire(start, atts[..|atts| - 1]) + atts[|atts| - 1].size) % TWO32
  }

  function PartExpanded(deflate: bool, size: u32, expanded: u32): u32 {
    if deflate then expanded else size
  }

  function AttachmentExpanded(a: Attachment): u32 {
    PartExpanded(a.flags.deflate, a.size, a.expandedSize)
  }

  function WrappedExpanded(start: u32, atts: seq<Attachment>): u32 {
    if atts == [] then start
    else (WrappedExpanded(start, atts[..|atts| - 1]) + AttachmentExpanded(atts[|atts| - 1])) % TWO32
  }

  /** The size checks at the end of readAttachmentHeaders. */
  predicate TotalsFit(env: Env, deflate: bool, sizes: Sizes, atts: seq<Attachment>) {
    WrappedWire(sizes.wire, atts) <= env.maxSize &&
    WrappedExpanded(PartExpanded(deflate, sizes.wire, sizes.expanded), atts) <= env.maxExpanded
  }

  function ReadAttachmentList(env: Env, deflate: bool, sizes: Sizes, s: bytes): Parse<seq<Attachment>> {
    var (n, s) :- ReadByte(s);
    var (atts, s) :- ReadAttachments(env, n, [], s);
    if TotalsFit(env, deflate, sizes, atts) then Got(atts, s) else Refuse(TOO_BIG)
  }

  // ---- the header ----

  datatype Routing = Routing(lead: Lead, from: Address, to: seq<Address>, addTo: AddTo)
  datatype Description = Description(time: bytes, topic: bytes, mediaType: MediaType)
  datatype Payloads = Payloads(sizes: Sizes, atts: seq<Attachment>)

  function ReadRouting(env: Env, s: bytes): Parse<Routing> {
    var (lead, s) :- ReadLead(s);
    var (from, s) :- ReadAddress(env, s);
    var (to, s) :- ReadTo(env, s);
    var (addTo, s) :- ReadAddTo(env, lead.flags, from, to, s);
    Got(Routing(lead, from, to, addTo), s)
  }

  function ReadDescription(env: Env, f: Flags, s: bytes): Parse<Description> {
    var (time, s) :- ReadTime(env, s);
    var (topic, s) :- ReadTopic(f, s);
    var (t, s) :- ReadType(env, f.commonType, s);
    Got(Description(time, topic, t), s)
  }

  function ReadPayloads(env: Env, f: Flags, s: bytes): Parse<Payloads> {
    var (sizes, s) :- ReadSizes(f.deflate, s);
    if f.deflate && sizes.expanded > env.maxExpanded then Refuse(TOO_BIG)
    else
      var (atts, s) :- ReadAttachmentList(env, f.deflate, sizes, s);
      Got(Payloads(sizes, atts), s)
  }

  function Assemble(r: Routing, d: Description, p: Payloads): Header {
    Header(1, r.lead.flags, r.lead.pid, r.from, r.to, r.addTo.from, r.addTo.addrs, d.time, d.topic,
           d.mediaType.id, d.mediaType.name, p.sizes.wire, p.sizes.expanded, p.atts)
  }

  /** readHeader up to and including the attachment headers. */
  function ReadHeader(env: Env, s: bytes): Parse<Header> {
    var (r, s) :- ReadRouting(env, s);
    var (d, s) :- ReadDescription(env, r.lead.flags, s);
    var (p, s) :- ReadPayloads(env, r.lead.flags, s);
    Got(Assemble(r, d, p), s)
  }
}
