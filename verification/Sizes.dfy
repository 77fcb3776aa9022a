/** The uint32 size checks against the true sizes a message takes. */
module SizeLimits {
  import opened Prelude
  import opened Header
  import opened Many
  import opened Parser
  import opened Codec
  import opened Identity

  /** Bytes on the wire: body plus attachments. */
  function WireTotal(start: nat, atts: seq<Attachment>): nat {
    if atts == [] then start else WireTotal(start, atts[..|atts| - 1]) + atts[|atts| - 1].size
  }

  /** Bytes once stored: every compressed part expanded. */
  function ExpandedTotal(start: nat, atts: seq<Attachment>): nat {
    if atts == [] then start else ExpandedTotal(start, atts[..|atts| - 1]) + AttachmentExpanded(atts[|atts| - 1])
  }

  function TrueWire(h: Header): nat { WireTotal(h.size, h.attachments) }

  function TrueExpanded(h: Header): nat {
    ExpandedTotal(PartExpanded(h.flags.deflate, h.size, h.expandedSize), h.attachments)
  }

  predicate SizesAccepted(env: Env, h: Header) {
    TotalsFit(env, h.flags.deflate, Sizes(h.size, h.expandedSize), h.attachments)
  }

  predicate SizesFit(env: Env, h: Header) {
    TrueWire(h) <= env.maxSize && TrueExpanded(h) <= env.maxExpanded
  }

  lemma AddModulo(a: nat, b: nat)
    ensures (a % TWO32 + b) % TWO32 == (a + b) % TWO32
  {
    var q := a / TWO32;
    assert a + b == TWO32 * q + (a % TWO32 + b);
    assert (TWO32 * q + (a % TWO32 + b)) % TWO32 == (a % TWO32 + b) % TWO32;
  }

  /** The source's running totals are the true totals modulo 2^32. */
  lemma {:induction false} TotalsWrap(start: u32, atts: seq<Attachment>)
    ensures WrappedWire(start, atts) == WireTotal(start, atts) % TWO32
    ensures WrappedExpanded(start, atts) == ExpandedTotal(start, atts) % TWO32
  {
    if atts != [] {
      var init, last := atts[..|atts| - 1], atts[|atts| - 1];
      TotalsWrap(start, init);
      AddModulo(WireTotal(start, init), last.size);
      AddModulo(ExpandedTotal(start, init), AttachmentExpanded(last));
    }
  }

  /** The checks never refuse a message that fits, and they let an oversized one
      through exactly when a total reaches 2^32 and both remainders fit. */
  lemma {:induction false} SizeCheckExactly(env: Env, h: Header)
    ensures SizesFit(env, h) ==> SizesAccepted(env, h)
    ensures SizesAccepted(env, h) && !SizesFit(env, h) <==>
            (TrueWire(h) >= TWO32 || TrueExpanded(h) >= TWO32) &&
            TrueWire(h) % TWO32 <= env.maxSize && TrueExpanded(h) % TWO32 <= env.maxExpanded
  {
    var start := PartExpanded(h.flags.deflate, h.size, h.expandedSize);
    assert WrappedWire(h.size, h.attachments) == TrueWire(h) % TWO32 by { TotalsWrap(h.size, h.attachments); }
    assert WrappedExpanded(start, h.attachments) == TrueExpanded(h) % TWO32 by { TotalsWrap(start, h.attachments); }
    Remainder(TrueWire(h), env.maxSize);
    Remainder(TrueExpanded(h), env.maxExpanded);
  }

  lemma {:induction false} Remainder(total: nat, max: u32)
    ensures total < TWO32 ==> total % TWO32 == total
    ensures total >= TWO32 ==> total > max
  {
  }

  /** Below 2^32 the checks decide the true sizes. */
  lemma {:induction false} SizeCheckDecides(env: Env, h: Header)
    requires TrueWire(h) < TWO32 && TrueExpanded(h) < TWO32
    ensures SizesAccepted(env, h) <==> SizesFit(env, h)
  {
    SizeCheckExactly(env, h);
  }

  /** Well-formed but for this host's size limits. */
  predicate OtherwiseValid(env: Env, h: Header) {
    WellFormed(env.(maxSize := TWO32 - 1, maxExpanded := TWO32 - 1), h)
  }

  lemma {:induction false} ExpandedAtLeast(start: nat, atts: seq<Attachment>)
    ensures ExpandedTotal(start, atts) >= start
  {
    if atts != [] { ExpandedAtLeast(start, atts[..|atts| - 1]); }
  }

  lemma {:induction false} SameButLimits(env: Env, h: Header)
    requires OtherwiseValid(env, h)
    ensures WellFormed(env, h) <==>
            SizesAccepted(env, h) && (h.flags.deflate ==> h.expandedSize <= env.maxExpanded)
  {
    var free := env.(maxSize := TWO32 - 1, maxExpanded := TWO32 - 1);
    assert forall a :: Key(free, a) == Key(env, a) && Sendable(free, a) == Sendable(env, a);
    assert forall addrs: seq<Address> :: Keys(free, addrs) == Keys(env, addrs);
    assert forall a :: AttachmentOk(free, a) == AttachmentOk(env, a);
  }

  /** An otherwise valid header is read if and only if the remainders of both true totals
      fit, and the expanded size of a compressed body does. */
  lemma {:induction false} ReaderReadsIff(env: Env, h: Header, rest: bytes)
    requires OtherwiseValid(env, h)
    ensures ReadHeader(env, Encode(h) + rest) == Got(h, rest) <==>
      TrueWire(h) % TWO32 <= env.maxSize && TrueExpanded(h) % TWO32 <= env.maxExpanded &&
      (h.flags.deflate ==> h.expandedSize <= env.maxExpanded)
  {
    HeaderCodec(env, Encode(h) + rest, h, rest);
    SameButLimits(env, h);
    TotalsWrap(h.size, h.attachments);
    TotalsWrap(PartExpanded(h.flags.deflate, h.size, h.expandedSize), h.attachments);
  }

  /** An otherwise valid header whose true totals stay below 2^32 is read if and
      only if both totals fit their limits. */
  lemma {:induction false} ReaderDecidesSizes(env: Env, h: Header, rest: bytes)
    requires OtherwiseValid(env, h) && TrueWire(h) < TWO32 && TrueExpanded(h) < TWO32
    ensures ReadHeader(env, Encode(h) + rest) == Got(h, rest) <==> SizesFit(env, h)
  {
    HeaderCodec(env, Encode(h) + rest, h, rest);
    SameButLimits(env, h);
    SizeCheckDecides(env, h);
    ExpandedAtLeast(PartExpanded(h.flags.deflate, h.size, h.expandedSize), h.attachments);
  }

  /** Two uncompressed attachments of 2^31 bytes and nothing else. */
  predicate TwoHalves(h: Header) {
    h.size == 0 && !h.flags.deflate && |h.attachments| == 2 &&
    h.attachments[0].size == h.attachments[1].size == 0x8000_0000 &&
    !h.attachments[0].flags.deflate && !h.attachments[1].flags.deflate
  }

  /** A header with such attachments, otherwise valid, is read, whatever the limits,
      with 2^32 bytes to download. */
  lemma {:induction false} OversizedAccepted(env: Env, h: Header, rest: bytes)
    requires TwoHalves(h)
    ensures TrueWire(h) == TWO32 && SizesAccepted(env, h) && !SizesFit(env, h)
    ensures OtherwiseValid(env, h) ==> ReadHeader(env, Encode(h) + rest) == Got(h, rest)
  {
    HalvesAddUp(h);
    SizeCheckExactly(env, h);
    if OtherwiseValid(env, h) {
      SameButLimits(env, h);
      HeaderCodec(env, Encode(h) + rest, h, rest);
    }
  }

  lemma {:induction false} HalvesAddUp(h: Header)
    requires TwoHalves(h)
    ensures TrueWire(h) == TWO32 && TrueExpanded(h) == TWO32
  {
    var atts := h.attachments;
    assert atts[..1] == [atts[0]] && atts[..1][..0] == [];
    assert WireTotal(0, atts[..1]) == atts[0].size && ExpandedTotal(0, atts[..1]) == atts[0].size;
  }

  /** storedSize: the loop that computes the size checked against quotas and
      recorded as usage is the same true expanded total. */
  method StoredSize(h: Header) returns (size: nat)
    ensures size == TrueExpanded(h)
  {
    size := h.size;
    if h.flags.deflate { size := h.expandedSize; }
    for i := 0 to |h.attachments|
      invariant size == ExpandedTotal(PartExpanded(h.flags.deflate, h.size, h.expandedSize), h.attachments[..i])
    {
      var a := h.attachments[i];
      assert h.attachments[..i + 1][..i] == h.attachments[..i];
      if a.flags.deflate {
        size := size + a.expandedSize;
      } else {
        size := size + a.size;
      }
    }
    assert h.attachments[..|h.attachments|] == h.attachments;
  }

  lemma {:induction false} ExpandedBound(start: u32, atts: seq<Attachment>)
    ensures ExpandedTotal(start, atts) < (|atts| + 1) * TWO32
  {
    if atts != [] {
      ExpandedBound(start, atts[..|atts| - 1]);
    }
  }

  /** storedSize is an int64; no well-formed header can overflow it. */
  lemma {:induction false} StoredSizeFitsInt64(env: Env, h: Header)
    requires WellFormed(env, h)
    ensures TrueExpanded(h) < 0x8000_0000_0000_0000
  {
    ExpandedBound(PartExpanded(h.flags.deflate, h.size, h.expandedSize), h.attachments);
  }

  // ---- the payload itself ----

  /** A part expands to its declared expanded size, modulo 2^32. */
  lemma {:induction false} PartLength(cr: Crypto, file: bytes, size: u32, deflate: bool, expandedSize: u32)
    ensures var x := ExpandPart(cr, file, size, deflate, expandedSize);
      x.Some? ==> |x.value| % TWO32 == PartExpanded(deflate, size, expandedSize)
  {
  }

  lemma {:induction false} TotalFromFront(start: nat, atts: seq<Attachment>)
    requires atts != []
    ensures ExpandedTotal(start, atts) == AttachmentExpanded(atts[0]) + ExpandedTotal(start, atts[1..])
  {
    var n := |atts| - 1;
    if n > 0 {
      TotalFromFront(start, atts[..n]);
      assert atts[..n][1..] == atts[1..][..n - 1] && atts[1..][n - 1] == atts[n];
    } else {
      assert atts[..0] == [] && atts[1..] == [];
    }
  }

  lemma {:induction false} AttachmentsLength(cr: Crypto, atts: seq<Attachment>, files: seq<bytes>)
    ensures var x := ExpandAttachments(cr, atts, files);
      x.Some? ==> |x.value| % TWO32 == ExpandedTotal(0, atts) % TWO32
    decreases |atts|
  {
    if atts != [] && files != [] && ExpandAttachments(cr, atts, files).Some? {
      var a := atts[0];
      var first := ExpandPart(cr, files[0], a.size, a.flags.deflate, a.expandedSize).value;
      var rest := ExpandAttachments(cr, atts[1..], files[1..]).value;
      PartLength(cr, files[0], a.size, a.flags.deflate, a.expandedSize);
      AttachmentsLength(cr, atts[1..], files[1..]);
      TotalFromFront(0, atts);
      SumModulo(|first|, AttachmentExpanded(a), |rest|, ExpandedTotal(0, atts[1..]));
    }
  }

  lemma {:induction false} SumModulo(a: nat, a': nat, b: nat, b': nat)
    requires a % TWO32 == a' % TWO32 && b % TWO32 == b' % TWO32
    ensures (a + b) % TWO32 == (a' + b') % TWO32
  {
    AddModulo(a, b);
    AddModulo(a', b);
    AddModulo(b, a');
    AddModulo(b', a');
  }

  lemma {:induction false} TotalShifts(start: nat, atts: seq<Attachment>)
    ensures ExpandedTotal(start, atts) == start + ExpandedTotal(0, atts)
  {
    if atts != [] { TotalShifts(start, atts[..|atts| - 1]); }
  }

  /** The size checked, charged and limited is the length of the payload that was hashed,
      modulo 2^32. */
  lemma {:induction false} ExpandedLength(cr: Crypto, h: Header, body: bytes, files: seq<bytes>)
    ensures var x := Expand(cr, h, body, files); x.Some? ==> |x.value| % TWO32 == TrueExpanded(h) % TWO32
  {
    var x := Expand(cr, h, body, files);
    if x.Some? {
      var b := ExpandPart(cr, body, h.size, h.flags.deflate, h.expandedSize).value;
      var a := ExpandAttachments(cr, h.attachments, files).value;
      PartLength(cr, body, h.size, h.flags.deflate, h.expandedSize);
      AttachmentsLength(cr, h.attachments, files);
      var start := PartExpanded(h.flags.deflate, h.size, h.expandedSize);
      TotalShifts(start, h.attachments);
      SumModulo(|b|, start, |a|, ExpandedTotal(0, h.attachments));
    }
  }
}
