/** The wire header of a message (pkg/fmsg/fmsg.go) and its encoding. */
module Header {
  import opened Prelude
  import opened Many

  /** The flag byte as its eight bits, bit 0 first. */
  datatype Flags = Flags(hasPid: bool, hasAddTo: bool, commonType: bool, important: bool,
                         noReply: bool, deflate: bool, terminal: bool, reserved: bool)

  function Bit(b: bool): nat { if b then 1 else 0 }

  function Nibble(a: bool, b: bool, c: bool, d: bool): nat {
    Bit(a) + 2 * Bit(b) + 4 * Bit(c) + 8 * Bit(d)
  }

  function FlagsByte(f: Flags): byte {
    Nibble(f.hasPid, f.hasAddTo, f.commonType, f.important) +
    16 * Nibble(f.noReply, f.deflate, f.terminal, f.reserved)
  }

  function ByteFlags(b: byte): Flags {
    var low := b % 16;
    var high := b / 16;
    Flags(low % 2 == 1, low / 2 % 2 == 1, low / 4 % 2 == 1, low / 8 == 1,
          high % 2 == 1, high / 2 % 2 == 1, high / 4 % 2 == 1, high / 8 == 1)
  }

  lemma NibbleBits(n: nat)
    requires n < 16
    ensures Nibble(n % 2 == 1, n / 2 % 2 == 1, n / 4 % 2 == 1, n / 8 == 1) == n
  {
  }

  lemma Halve(low: bool, high: nat)
    ensures (Bit(low) + 2 * high) / 2 == high && ((Bit(low) + 2 * high) % 2 == 1 <==> low)
  {
  }

  lemma NibbleRoundTrip(a: bool, b: bool, c: bool, d: bool)
    ensures var n := Nibble(a, b, c, d);
      n < 16 && (n % 2 == 1 <==> a) && (n / 2 % 2 == 1 <==> b) && (n / 4 % 2 == 1 <==> c) && (n / 8 == 1 <==> d)
  {
  }

  lemma Split16(low: nat, high: nat)
    requires low < 16
    ensures (low + 16 * high) % 16 == low && (low + 16 * high) / 16 == high
  {
  }

  lemma FlagsRoundTrip(f: Flags)
    ensures ByteFlags(FlagsByte(f)) == f
  {
    var low := Nibble(f.hasPid, f.hasAddTo, f.commonType, f.important);
    var high := Nibble(f.noReply, f.deflate, f.terminal, f.reserved);
    var b := FlagsByte(f);
    assert b % 16 == low && b / 16 == high by { Split16(low, high); }
    assert ByteFlags(b) == f by {
      NibbleRoundTrip(f.hasPid, f.hasAddTo, f.commonType, f.important);
      NibbleRoundTrip(f.noReply, f.deflate, f.terminal, f.reserved);
    }
  }

  lemma ByteRoundTrip(b: byte)
    ensures FlagsByte(ByteFlags(b)) == b
  {
    NibbleBits(b % 16);
    NibbleBits(b / 16);
  }

  /** Attachment flags: two meaningful bits, and the six reserved ones as a number. */
  type sixBits = n: int | 0 <= n < 64
  datatype AttachmentFlags = AttachmentFlags(commonType: bool, deflate: bool, reserved: sixBits)

  function AttachmentFlagsByte(f: AttachmentFlags): byte {
    Bit(f.commonType) + 2 * (Bit(f.deflate) + 2 * f.reserved)
  }

  function ByteAttachmentFlags(b: byte): (f: AttachmentFlags)
    ensures AttachmentFlagsByte(f) == b
  {
    AttachmentFlags(b % 2 == 1, b / 2 % 2 == 1, b / 2 / 2)
  }

  lemma AttachmentFlagsRoundTrip(f: AttachmentFlags)
    ensures ByteAttachmentFlags(AttachmentFlagsByte(f)) == f
  {
    Halve(f.deflate, f.reserved);
    Halve(f.commonType, Bit(f.deflate) + 2 * f.reserved);
  }

  datatype Address = Address(user: bytes, domain: bytes)

  const AT: byte := 64

  /** @user@domain */
  function AddressText(a: Address): bytes {
    [AT] + a.user + [AT] + a.domain
  }

  datatype Attachment = Attachment(flags: AttachmentFlags, typeID: byte, mediaType: bytes,
                                   filename: bytes, size: u32, expandedSize: u32)

  /** The fields that go on the wire; `time` is the eight bytes of the float64. */
  datatype Header = Header(version: byte, flags: Flags, pid: bytes, from: Address, to: seq<Address>,
                           addToFrom: Option<Address>, addTo: seq<Address>, time: bytes,
                           topic: bytes, typeID: byte, mediaType: bytes,
                           size: u32, expandedSize: u32, attachments: seq<Attachment>)

  /** One length byte, truncated as `byte(len(s))` truncates, then the text. */
  function Prefixed(text: bytes): bytes {
    [|text| % 256] + text
  }

  function EncodeAddress(a: Address): bytes {
    Prefixed(AddressText(a))
  }

  /** The expanded size is present exactly when the part is compressed. */
  function EncodeSizes(deflate: bool, size: u32, expandedSize: u32): bytes {
    LE32(size) + (if deflate then LE32(expandedSize) else [])
  }

  /** A counted list of addresses. */
  function EncodeAddressList(addrs: seq<Address>): bytes {
    EncodeList(EncodeAddress, addrs)
  }

  /** A type is one ID byte or a prefixed string. */
  function EncodeType(common: bool, typeID: byte, mediaType: bytes): bytes {
    if common then [typeID] else Prefixed(mediaType)
  }

  function EncodeAttachment(a: Attachment): bytes {
    [AttachmentFlagsByte(a.flags)] + EncodeType(a.flags.commonType, a.typeID, a.mediaType) +
    Prefixed(a.filename) + EncodeSizes(a.flags.deflate, a.size, a.expandedSize)
  }

  function EncodeAttachmentList(atts: seq<Attachment>): bytes {
    EncodeList(EncodeAttachment, atts)
  }

  function Adder(h: Header): Address {
    if h.addToFrom.Some? then h.addToFrom.value else h.from
  }

  function EncodeLead(h: Header): bytes {
    [h.version, FlagsByte(h.flags)] + (if h.flags.hasPid then h.pid else [])
  }

  function EncodeAddTo(h: Header): bytes {
    if h.flags.hasAddTo then
      EncodeAddress(Adder(h)) + EncodeAddressList(h.addTo)
    else []
  }

  function EncodeTopic(h: Header): bytes {
    if h.flags.hasPid then [] else Prefixed(h.topic)
  }

  /** Who the message is from and for. */
  function EncodeRouting(h: Header): bytes {
    EncodeLead(h) + EncodeAddress(h.from) + EncodeAddressList(h.to) + EncodeAddTo(h)
  }

  /** When it was sent and what it is. */
  function EncodeDescription(h: Header): bytes {
    h.time + EncodeTopic(h) + EncodeType(h.flags.commonType, h.typeID, h.mediaType)
  }

  /** How long its payloads are. */
  function EncodePayloads(h: Header): bytes {
    EncodeSizes(h.flags.deflate, h.size, h.expandedSize) + EncodeAttachmentList(h.attachments)
  }

  /** Header.Encode: the header exactly as transmitted and hashed. */
  function Encode(h: Header): bytes {
    EncodeRouting(h) + EncodeDescription(h) + EncodePayloads(h)
  }

  /** WriteByte(byte(len(s))) followed by WriteString(s). */
  method WriteString(buffer: bytes, text: bytes) returns (b: bytes)
    ensures b == buffer + Prefixed(text)
  {
    b := buffer + [|text| % 256];
    b := b + text;
    Assoc(buffer, [|text| % 256], text);
  }

  method WriteType(buffer: bytes, common: bool, typeID: byte, mediaType: bytes) returns (b: bytes)
    ensures b == buffer + EncodeType(common, typeID, mediaType)
  {
    if common {
      b := buffer + [typeID];
    } else {
      b := WriteString(buffer, mediaType);
    }
  }

  method WriteSizes(buffer: bytes, deflate: bool, size: u32, expandedSize: u32) returns (b: bytes)
    ensures b == buffer + EncodeSizes(deflate, size, expandedSize)
  {
    b := buffer + LE32(size);
    if deflate { b := b + LE32(expandedSize); }
    assert b == buffer + LE32(size) + (if deflate then LE32(expandedSize) else []);
    Assoc(buffer, LE32(size), if deflate then LE32(expandedSize) else []);
  }

  /** The recipient loop of Encode, shared by _to_ and _add to_. */
  method WriteAddresses(buffer: bytes, addrs: seq<Address>) returns (b: bytes)
    ensures b == buffer + EncodeAddressList(addrs)
  {
    var count: bytes := [|addrs| % 256];
    b := buffer + count;
    for i := 0 to |addrs|
      invariant b == buffer + count + EncodeAll(EncodeAddress, addrs[..i])
    {
      assert addrs[..i + 1] == addrs[..i] + [addrs[i]];
      EncodeAllAppend(EncodeAddress, addrs[..i], addrs[i]);
      Assoc(buffer + count, EncodeAll(EncodeAddress, addrs[..i]), EncodeAddress(addrs[i]));
      b := WriteString(b, AddressText(addrs[i]));
    }
    assert addrs[..|addrs|] == addrs;
    Assoc(buffer, count, EncodeAll(EncodeAddress, addrs));
  }

  method WriteAttachment(buffer: bytes, a: Attachment) returns (b: bytes)
    ensures b == buffer + EncodeAttachment(a)
  {
    b := buffer + [AttachmentFlagsByte(a.flags)];
    b := WriteType(b, a.flags.commonType, a.typeID, a.mediaType);
    b := WriteString(b, a.filename);
    b := WriteSizes(b, a.flags.deflate, a.size, a.expandedSize);
  }

  method WriteAttachments(buffer: bytes, atts: seq<Attachment>) returns (b: bytes)
    ensures b == buffer + EncodeAttachmentList(atts)
  {
    var count: bytes := [|atts| % 256];
    b := buffer + count;
    for i := 0 to |atts|
      invariant b == buffer + count + EncodeAll(EncodeAttachment, atts[..i])
    {
      assert atts[..i + 1] == atts[..i] + [atts[i]];
      EncodeAllAppend(EncodeAttachment, atts[..i], atts[i]);
      Assoc(buffer + count, EncodeAll(EncodeAttachment, atts[..i]), EncodeAttachment(atts[i]));
      b := WriteAttachment(b, atts[i]);
    }
    assert atts[..|atts|] == atts;
    Assoc(buffer, count, EncodeAll(EncodeAttachment, atts));
  }

  method WriteLead(h: Header) returns (b: bytes)
    ensures b == EncodeLead(h)
  {
    b := [h.version, FlagsByte(h.flags)];
    if h.flags.hasPid { b := b + h.pid; }
  }

  method WriteRouting(h: Header) returns (b: bytes)
    ensures b == EncodeRouting(h)
  {
    b := WriteLead(h);
    b := WriteString(b, AddressText(h.from));
    b := WriteAddresses(b, h.to);
    if h.flags.hasAddTo {
      ghost var before := b;
      b := WriteString(b, AddressText(Adder(h)));
      b := WriteAddresses(b, h.addTo);
      Assoc(before, EncodeAddress(Adder(h)), EncodeAddressList(h.addTo));
    }
  }

  /** Header.Encode as the source runs it: one growing buffer. */
  method WriteHeader(h: Header) returns (b: bytes)
    ensures b == Encode(h)
  {
    b := WriteRouting(h);
    ghost var routing := b;
    b := b + h.time;
    if !h.flags.hasPid {
      b := WriteString(b, h.topic);
    }
    assert b == routing + (h.time + EncodeTopic(h));
    b := WriteType(b, h.flags.commonType, h.typeID, h.mediaType);
    Assoc(routing, h.time + EncodeTopic(h), EncodeType(h.flags.commonType, h.typeID, h.mediaType));
    ghost var described := b;
    b := WriteSizes(b, h.flags.deflate, h.size, h.expandedSize);
    b := WriteAttachments(b, h.attachments);
    Assoc(described, EncodeSizes(h.flags.deflate, h.size, h.expandedSize), EncodeAttachmentList(h.attachments));
  }
}
