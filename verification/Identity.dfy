/** Message identity: the hash of a message and of its add-to batches
    (pkg/fmsg/fmsg.go, pkg/message/store.go, the reconstruction in cmd/fmsgd/host.go). */
module Identity {
  import opened Prelude
  import opened Many
  import opened Header
  import opened Parser
  import opened Codec

  /** SHA-256 and zlib, as functions. */
  datatype Crypto = Crypto(hash: bytes -> bytes, inflate: bytes -> Option<bytes>)

  /** A header and the payload files it points to, in wire form. */
  datatype Wire = Wire(h: Header, body: bytes, atts: seq<bytes>)

  /** HashPayload: the expanded bytes of one file, or none when it is too short,
      not zlib data, or not of the declared expanded size. */
  function ExpandPart(cr: Crypto, file: bytes, size: u32, deflate: bool, expandedSize: u32): Option<bytes> {
    if deflate then
      match cr.inflate(if |file| <= size then file else file[..size])
      case None => None
      case Some(x) => if |x| % TWO32 == expandedSize then Some(x) else None
    else if |file| < size then None
    else Some(file[..size])
  }

  /** The expanded attachments one after another; every attachment needs a file. */
  function ExpandAttachments(cr: Crypto, atts: seq<Attachment>, files: seq<bytes>): Option<bytes> {
    if atts == [] then Some([])
    else if files == [] then None
    else
      match ExpandPart(cr, files[0], atts[0].size, atts[0].flags.deflate, atts[0].expandedSize)
      case None => None
      case Some(first) =>
        match ExpandAttachments(cr, atts[1..], files[1..])
        case None => None
        case Some(rest) => Some(first + rest)
  }

  /** All payload bytes as hashed. */
  function Expand(cr: Crypto, h: Header, body: bytes, files: seq<bytes>): Option<bytes> {
    match ExpandPart(cr, body, h.size, h.flags.deflate, h.expandedSize)
    case None => None
    case Some(b) =>
      match ExpandAttachments(cr, h.attachments, files)
      case None => None
      case Some(a) => Some(b + a)
  }

  /** GetMessageHash: over the encoded header and the expanded payloads. */
  function MessageHash(cr: Crypto, w: Wire): Option<bytes> {
    match Expand(cr, w.h, w.body, w.atts)
    case None => None
    case Some(x) => Some(cr.hash(Encode(w.h) + x))
  }

  /** GetMessageHash as the source runs it: feeding one hash, part by part. */
  method ComputeMessageHash(cr: Crypto, w: Wire) returns (r: Option<bytes>)
    ensures r == MessageHash(cr, w)
  {
    var fed := WriteHeader(w.h);
    ghost var header := fed;
    var part := ExpandPart(cr, w.body, w.h.size, w.h.flags.deflate, w.h.expandedSize);
    if part.None? { return None; }
    fed := fed + part.value;
    ghost var before := fed;
    var atts := w.h.attachments;
    ghost var done: bytes := [];
    assert atts[0..] == atts && w.atts[0..] == w.atts;
    ghost var all := ExpandAttachments(cr, atts, w.atts);
    assert all.Some? ==> done + all.value == all.value;
    for i := 0 to |atts|
      invariant i <= |w.atts| && fed == before + done
      invariant ExpandAttachments(cr, atts, w.atts) ==
        match ExpandAttachments(cr, atts[i..], w.atts[i..])
        case None => None
        case Some(rest) => Some(done + rest)
    {
      assert atts[i..][1..] == atts[i + 1..] && (i < |w.atts| ==> w.atts[i..][1..] == w.atts[i + 1..]);
      if i == |w.atts| { return None; }
      part := ExpandPart(cr, w.atts[i], atts[i].size, atts[i].flags.deflate, atts[i].expandedSize);
      if part.None? { return None; }
      ghost var rest := ExpandAttachments(cr, atts[i + 1..], w.atts[i + 1..]);
      if rest.Some? { Assoc(done, part.value, rest.value); }
      Assoc(before, done, part.value);
      done := done + part.value;
      fed := fed + part.value;
    }
    assert done + [] == done;
    r := Some(cr.hash(fed));
    assert fed == header + MessagePayload(cr, w).value by {
      Assoc(header, ExpandPart(cr, w.body, w.h.size, w.h.flags.deflate, w.h.expandedSize).value, done);
    }
  }

  function MessagePayload(cr: Crypto, w: Wire): Option<bytes> { Expand(cr, w.h, w.body, w.atts) }

  // ---- batches ----

  datatype Batch = Batch(adder: Address, time: bytes, addTo: seq<Address>)

  /** The header of an add-to message (pkg/message/store.go:250-270). */
  function BatchHeader(h: Header, original: bytes, b: Batch): Header {
    h.(flags := h.flags.(hasPid := true, hasAddTo := true), pid := original, time := b.time, topic := [],
       addToFrom := Some(b.adder), addTo := b.addTo)
  }

  function BatchWire(w: Wire, original: bytes, b: Batch): Wire {
    w.(h := BatchHeader(w.h, original, b))
  }

  /** A snapshot of the message: of its original form, or of one of its batches. */
  ghost predicate SnapshotOf(s: Wire, o: Wire, original: bytes) {
    s == o || exists b :: s == BatchWire(o, original, b)
  }

  /** Whichever snapshot a host builds a batch from, it seals the same message. */
  lemma {:induction false} BatchIndependentOfSnapshot(o: Wire, s: Wire, t: Wire, original: bytes, b: Batch)
    requires SnapshotOf(s, o, original) && SnapshotOf(t, o, original)
    ensures BatchWire(s, original, b) == BatchWire(t, original, b) == BatchWire(o, original, b)
  {
    assert forall c :: BatchHeader(BatchHeader(o.h, original, c), original, b) == BatchHeader(o.h, original, b);
  }

  lemma {:induction false} BatchKeepsPayload(cr: Crypto, w: Wire, original: bytes, b: Batch)
    ensures Expand(cr, BatchHeader(w.h, original, b), w.body, w.atts) == Expand(cr, w.h, w.body, w.atts)
  {
  }

  // ---- two hosts ----

  /** The libraries two hosts share; limits, clock and domain are each host's own. */
  function Library(env: Env): Env {
    env.(domain := [], now := 0.0, pastDelta := 0.0, futureDelta := 0.0, maxSize := TWO32 - 1, maxExpanded := TWO32 - 1)
  }

  lemma {:induction false} WellFormedInLibrary(env: Env, h: Header)
    requires WellFormed(env, h)
    ensures WellFormed(Library(env), h)
  {
    var l := Library(env);
    assert forall a :: Key(l, a) == Key(env, a) && Sendable(l, a) == Sendable(env, a);
    assert forall addrs: seq<Address> :: Keys(l, addrs) == Keys(env, addrs);
    assert forall a :: AttachmentOk(l, a) == AttachmentOk(env, a);
  }

  /** Two messages with the same hash are the same header and the same expanded
      payload, unless the hash collides on them. `lib` is what two hosts share,
      so neither host's clock or limits matter. */
  lemma {:induction false} SameHashSameMessage(cr: Crypto, lib: Env, a: Wire, b: Wire)
    requires WellFormed(lib, a.h) && WellFormed(lib, b.h)
    requires MessageHash(cr, a).Some? && MessageHash(cr, a) == MessageHash(cr, b)
    requires NoCollision(cr, a, b)
    ensures a.h == b.h && Expand(cr, a.h, a.body, a.atts) == Expand(cr, b.h, b.body, b.atts)
  {
    EncodePrefixFree(lib, a.h, Expand(cr, a.h, a.body, a.atts).value, b.h, Expand(cr, b.h, b.body, b.atts).value);
  }

  /** The bytes a message's hash is taken over. */
  function Hashed(cr: Crypto, w: Wire): bytes {
    var x := Expand(cr, w.h, w.body, w.atts);
    if x.Some? then Encode(w.h) + x.value else []
  }

  /** The hash does not take two different messages for one. */
  ghost predicate NoCollision(cr: Crypto, a: Wire, b: Wire) {
    cr.hash(Hashed(cr, a)) == cr.hash(Hashed(cr, b)) ==> Hashed(cr, a) == Hashed(cr, b)
  }

  /** handleAddToPath: the received add-to header over the stored parent's files. */
  function Reconstruct(cr: Crypto, received: Header, stored: Wire): Option<bytes> {
    MessageHash(cr, Wire(received, stored.body, stored.atts))
  }

  /** loadMsg: a snapshot with the recipients of every stored batch merged in. */
  function Loaded(snapshot: Wire, original: bytes, added: seq<Address>): Wire {
    if added == [] then snapshot
    else
      var h := snapshot.h;
      snapshot.(h := h.(flags := h.flags.(hasPid := true, hasAddTo := true), pid := original, addTo := added))
  }

  /** A host holds the message o: it loads a snapshot of it, whatever its batches. */
  ghost predicate Keeps(stored: Wire, o: Wire, original: bytes) {
    exists s: Wire, added: seq<Address> :: SnapshotOf(s, o, original) && stored == Loaded(s, original, added)
  }

  lemma {:induction false} KeepsPayload(stored: Wire, o: Wire, original: bytes)
    requires Keeps(stored, o, original)
    ensures stored.body == o.body && stored.atts == o.atts
  {
  }

  /** The hash sealed for a batch is the one reconstructed over any wire with the
      payload of a message whose hash the batch names. */
  lemma {:induction false} SealedIsReconstructed(cr: Crypto, lib: Env, o: Wire, s: Wire, o': Wire, stored: Wire,
                                                 original: bytes, b: Batch)
    requires WellFormed(lib, o.h) && WellFormed(lib, o'.h)
    requires MessageHash(cr, o) == Some(original) && MessageHash(cr, o') == Some(original)
    requires NoCollision(cr, o, o')
    requires SnapshotOf(s, o, original) && stored.body == o'.body && stored.atts == o'.atts
    ensures var sealed := BatchWire(s, original, b);
      MessageHash(cr, sealed).Some? && Reconstruct(cr, sealed.h, stored) == MessageHash(cr, sealed)
  {
    BatchIndependentOfSnapshot(o, s, s, original, b);
    SameHashSameMessage(cr, lib, o, o');
    BatchKeepsPayload(cr, o, original, b);
    BatchKeepsPayload(cr, o', original, b);
  }

  /** The batch hash the sender seals, from any snapshot it holds, is the hash the
      receiver reconstructs from the transmitted header and the message it
      loads, with or without other batches, when both hold the message whose
      hash the batch names, however old that is. */
  lemma {:induction false} ReconstructedIsSealed(cr: Crypto, lib: Env, env: Env, o: Wire, s: Wire, o': Wire,
                                                 stored: Wire,
                                                 original: bytes, b: Batch, rest: bytes)
    requires WellFormed(lib, o.h) && WellFormed(lib, o'.h)
    requires MessageHash(cr, o) == Some(original) && MessageHash(cr, o') == Some(original)
    requires NoCollision(cr, o, o')
    requires SnapshotOf(s, o, original) && Keeps(stored, o', original)
    requires WellFormed(env, BatchHeader(o.h, original, b))
    ensures var sealed := BatchWire(s, original, b);
      var got := ReadHeader(env, Encode(sealed.h) + rest);
      got == Got(sealed.h, rest) && MessageHash(cr, sealed).Some? &&
      Reconstruct(cr, got.value, stored) == MessageHash(cr, sealed)
  {
    var sealed := BatchWire(s, original, b);
    BatchIndependentOfSnapshot(o, s, s, original, b);
    HeaderCodec(env, Encode(sealed.h) + rest, sealed.h, rest);
    KeepsPayload(stored, o', original);
    SealedIsReconstructed(cr, lib, o, s, o', stored, original, b);
  }

  /** A host that does not check times. */
  function Timeless(env: Env): Env { env.(pastDelta := 0.0, futureDelta := 0.0) }

  /** A batch of an original that is well-formed but for its age is itself
      well-formed, so its header survives the wire, when the batch's own time,
      its adder and the added addresses are good. */
  lemma {:induction false} BatchWellFormed(env: Env, h: Header, original: bytes, b: Batch)
    requires WellFormed(Timeless(env), h) && !h.flags.terminal && |original| == 32 && TimeOk(env, b.time)
    requires Sendable(env, b.adder) && InFromOrTo(env, b.adder, h.from, h.to) && ListOk(env, b.addTo)
    ensures WellFormed(env, BatchHeader(h, original, b))
  {
    var l := Timeless(env);
    assert forall a :: Key(l, a) == Key(env, a) && Sendable(l, a) == Sendable(env, a);
    assert forall addrs: seq<Address> :: Keys(l, addrs) == Keys(env, addrs);
    assert forall a :: AttachmentOk(l, a) == AttachmentOk(env, a);
  }

  // ---- sealing a stored batch ----

  /** message.Address: exactly two @ signs, the first in front. */
  function RowAddress(text: bytes): Option<Address> {
    var at := LastIndex(text, AT);
    if |text| > 255 || |text| == 0 || text[0] != AT || at < 2 || at + 1 >= |text| || AT in text[1..at] then None
    else Some(Address(text[1..at], text[at + 1..]))
  }

  /** A text is the plain form of an address: two non-empty parts without an @. */
  ghost predicate IsTextOf(t: bytes, a: Address) {
    t == AddressText(a) && a.user != [] && a.domain != [] && AT !in a.user && AT !in a.domain && |t| <= 255
  }

  /** A row's text is read as the address it is the text of, and as none if it is of none. */
  lemma {:induction false} RowAddressIff(t: bytes, a: Address)
    ensures RowAddress(t) == Some(a) <==> IsTextOf(t, a)
  {
    if RowAddress(t) == Some(a) {
      var at := LastIndex(t, AT);
      assert t == [AT] + t[1..at] + [AT] + t[at + 1..];
      assert forall j :: 0 <= j < |a.domain| ==> a.domain[j] == t[at + 1 + j];
    }
    if IsTextOf(t, a) {
      assert LastIndex(t, AT) == 1 + |a.user| by { LastAt([AT] + a.user, a.domain); }
      AddressTextParts(a);
    }
  }

  ghost predicate IsRowText(t: bytes) { exists a :: IsTextOf(t, a) }

  lemma {:induction false} RowAddressNone(t: bytes)
    ensures RowAddress(t).None? <==> !IsRowText(t)
  {
    if RowAddress(t).Some? { RowAddressIff(t, RowAddress(t).value); }
    if IsRowText(t) {
      var a :| IsTextOf(t, a);
      RowAddressIff(t, a);
    }
  }

  /** UnmarshalPrepared: a snapshot is used only if it hashes to its identity. */
  predicate Verified(cr: Crypto, s: Wire, expected: bytes) {
    |expected| == 32 && MessageHash(cr, s) == Some(expected)
  }

  /** What FinalizeBatch does: nothing for a draft, whose batches wait for its send;
      nothing for a batch already sealed; otherwise it seals or fails. */
  datatype Sealing = Waits | Already(hash: bytes) | Sealed(wire: Wire, hash: bytes) | Fails

  /** A batch as stored: who added, when, the recipient rows in order, and its hash if
      it is sealed. */
  datatype BatchRows = BatchRows(adder: bytes, time: bytes, rows: seq<bytes>, existing: bytes)

  /** The snapshot verifies, and the stored texts are addresses, between 1 and 255 added. */
  ghost predicate Sealable(cr: Crypto, snapshot: Wire, identity: bytes, b: BatchRows) {
    |identity| == 32 && MessageHash(cr, snapshot) == Some(identity) && IsRowText(b.adder) && 0 < |b.rows| <= 255 &&
    forall i :: 0 <= i < |b.rows| ==> IsRowText(b.rows[i])
  }

  /** The batch says what the stored texts say, in order. */
  ghost predicate SaysRows(batch: Batch, b: BatchRows) {
    IsTextOf(b.adder, batch.adder) && batch.time == b.time && |batch.addTo| == |b.rows| &&
    forall i :: 0 <= i < |b.rows| ==> IsTextOf(b.rows[i], batch.addTo[i])
  }

  /** FinalizeBatch: reads the recipient rows in order, sets the header fields one by
      one and hashes. What it seals is the one batch the stored texts spell. */
  method FinalizeBatch(cr: Crypto, sent: bool, original: bytes, snapshot: Wire, identity: bytes, b: BatchRows)
    returns (r: Sealing)
    ensures r == Waits <==> !sent
    ensures r.Already? <==> sent && |original| == 32 && b.existing != []
    ensures r.Already? ==> r.hash == b.existing
    ensures r.Sealed? <==> sent && |original| == 32 && b.existing == [] && Sealable(cr, snapshot, identity, b)
    ensures r.Sealed? ==>
      MessageHash(cr, r.wire) == Some(r.hash) && r.wire.h.addToFrom.Some? &&
      var batch := Batch(r.wire.h.addToFrom.value, r.wire.h.time, r.wire.h.addTo);
      SaysRows(batch, b) && r.wire == BatchWire(snapshot, original, batch)
  {
    if !sent { return Waits; }
    if |original| != 32 { return Fails; }
    if b.existing != [] { return Already(b.existing); }
    if !Verified(cr, snapshot, identity) { return Fails; }
    var w := snapshot;
    w := w.(h := w.h.(flags := w.h.flags.(hasPid := true, hasAddTo := true)));
    w := w.(h := w.h.(pid := original));
    w := w.(h := w.h.(time := b.time));
    w := w.(h := w.h.(topic := []));
    w := w.(h := w.h.(addTo := []));
    var from := RowAddress(b.adder);
    RowAddressNone(b.adder);
    if from.None? { return Fails; }
    RowAddressIff(b.adder, from.value);
    w := w.(h := w.h.(addToFrom := from));
    var added := ReadRows(b.rows);
    if added.None? { return Fails; }
    w := w.(h := w.h.(addTo := added.value));
    if |added.value| == 0 || |added.value| > 255 { return Fails; }
    ghost var batch := Batch(from.value, b.time, added.value);
    assert w == BatchWire(snapshot, original, batch);
    BatchKeepsPayload(cr, snapshot, original, batch);
    var hash := ComputeMessageHash(cr, w);
    r := Sealed(w, hash.value);
  }

  /** The loop over the recipient rows: all of them read, in order, or none. */
  method ReadRows(rows: seq<bytes>) returns (r: Option<seq<Address>>)
    ensures r.Some? <==> forall i :: 0 <= i < |rows| ==> IsRowText(rows[i])
    ensures r.Some? ==> |r.value| == |rows| && forall i :: 0 <= i < |rows| ==> IsTextOf(rows[i], r.value[i])
  {
    var addrs: seq<Address> := [];
    for i := 0 to |rows|
      invariant |addrs| == i && forall j :: 0 <= j < i ==> IsTextOf(rows[j], addrs[j])
    {
      var a := RowAddress(rows[i]);
      RowAddressNone(rows[i]);
      if a.None? { return None; }
      RowAddressIff(rows[i], a.value);
      addrs := addrs + [a.value];
    }
    r := Some(addrs);
  }

  // ---- payloads ----

  /** An uncompressed file counts with exactly its declared first bytes. */
  lemma {:induction false} PlainPartIff(cr: Crypto, file: bytes, size: u32, expandedSize: u32, x: bytes)
    ensures ExpandPart(cr, file, size, false, expandedSize) == Some(x) <==> |x| == size && x <= file
  {
    if |x| == size && x <= file { assert x == file[..size]; }
  }

  /** A compressed file counts with what it was compressed from: whatever deflates into
      z, expands back, and is declared with its true length. */
  lemma {:induction false} CompressedPartIs(cr: Crypto, x: bytes, z: bytes, trailing: bytes)
    requires cr.inflate(z) == Some(x) && |z| < TWO32 && |x| < TWO32
    ensures ExpandPart(cr, z + trailing, |z|, true, |x|) == Some(x)
    ensures forall n: u32 :: n != |x| ==> ExpandPart(cr, z + trailing, |z|, true, n) == None
  {
    assert (z + trailing)[..|z|] == z;
    assert |z + trailing| <= |z| ==> z + trailing == z;
  }

  /** The hash of a compressed message is over its header and the expanded body. */
  lemma {:induction false} HashIsOfExpanded(cr: Crypto, h: Header, x: bytes, z: bytes)
    requires h.attachments == [] && h.flags.deflate && h.size == |z| && h.expandedSize == |x|
    requires cr.inflate(z) == Some(x)
    ensures MessageHash(cr, Wire(h, z, [])) == Some(cr.hash(Encode(h) + x))
  {
    CompressedPartIs(cr, x, z, []);
    assert z + [] == z && x + [] == x;
  }
}
