/** The header reader as the source runs it: a connection whose unread input
    shrinks and whose written bytes grow, read field by field in loops. Every
    method is proved to do what the functions of Parser say. */
module Connection {
  import opened Prelude
  import opened Many
  import opened Header
  import opened Parser

  /** A read that yields spec's value leaves spec's remainder and writes nothing;
      one that ends the connection writes spec's response byte, if any. */
  ghost predicate Performs<T(!new)>(spec: Parse<T>, r: Option<T>, input: bytes, before: bytes, written: bytes) {
    match spec
    case Got(v, rest) => r == Some(v) && input == rest && written == before
    case Refuse(code) => r == None && written == before + [code]
    case Stop => r == None && written == before
  }

  lemma NamesSnoc(env: Env, atts: seq<Attachment>, a: Attachment)
    ensures Names(env, atts + [a]) == Names(env, atts) + {env.fold(a.filename)}
  {
  }

  lemma KeysSnoc(env: Env, addrs: seq<Address>, a: Address)
    ensures Keys(env, addrs + [a]) == Keys(env, addrs) + {Key(env, a)}
  {
  }

  class Conn {
    const env: Env
    var input: bytes
    var written: bytes

    constructor (env: Env, input: bytes)
      ensures this.env == env && this.input == input && written == []
    {
      this.env, this.input, written := env, input, [];
    }

    method SendCode(code: byte)
      modifies this
      ensures input == old(input) && written == old(written) + [code]
    {
      written := written + [code];
    }

    method NextByte() returns (r: Option<byte>)
      modifies this
      ensures Performs(ReadByte(old(input)), r, input, old(written), written)
    {
      if input == [] { return None; }
      r := Some(input[0]);
      input := input[1..];
    }

    method NextFull(n: nat) returns (r: Option<bytes>)
      modifies this
      ensures Performs(ReadFull(n, old(input)), r, input, old(written), written)
    {
      if |input| < n { return None; }
      r := Some(input[..n]);
      input := input[n..];
    }

    /** Reads what the stream still has, up to n bytes. */
    method NextUpTo(n: nat) returns (b: bytes)
      modifies this
      ensures ReadUpTo(n, old(input)) == Got(b, input) && written == old(written)
    {
      var k := if |input| < n then |input| else n;
      assert input[..|input|] == input;
      b := input[..k];
      input := input[k..];
    }

    method NextSlice() returns (r: Option<bytes>)
      modifies this
      ensures Performs(ReadSlice(old(input)), r, input, old(written), written)
    {
      var n := NextByte();
      if n.None? { return None; }
      var b := NextUpTo(n.value);
      r := Some(b);
    }

    method NextAddress() returns (r: Option<Address>)
      modifies this
      ensures Performs(ReadAddress(env, old(input)), r, input, old(written), written)
    {
      var b := NextSlice();
      if b.None? { return None; }
      r := ParseAddress(env, b.value);
    }

    method NextNewAddress(seen: set<bytes>, refuse: bool, ghost acc: seq<Address>) returns (r: Option<Address>)
      requires seen == Keys(env, acc)
      modifies this
      ensures Performs(ReadNewAddress(env, refuse, acc, old(input)), r, input, old(written), written)
    {
      r := NextAddress();
      if r.None? { return None; }
      if Key(env, r.value) in seen {
        if refuse { SendCode(INVALID); }
        return None;
      }
    }

    /** The countdown loop of readToRecipients and of readAddToRecipients. */
    method NextAddresses(count: nat, refuse: bool) returns (r: Option<seq<Address>>)
      modifies this
      ensures Performs(ReadAddresses(env, count, [], refuse, old(input)), r, input, old(written), written)
    {
      ghost var whole := ReadAddresses(env, count, [], refuse, input);
      var seen: set<bytes> := {};
      var list: seq<Address> := [];
      for num := count downto 0
        invariant written == old(written)
        invariant seen == Keys(env, list)
        invariant whole == ReadAddresses(env, num, list, refuse, input)
      {
        ReadAddressesStep(env, num + 1, list, refuse, input);
        var addr := NextNewAddress(seen, refuse, list);
        if addr.None? { return None; }
        seen := seen + {Key(env, addr.value)};
        KeysSnoc(env, list, addr.value);
        list := list + [addr.value];
      }
      r := Some(list);
    }

    method NextTo() returns (r: Option<seq<Address>>)
      modifies this
      ensures Performs(ReadTo(env, old(input)), r, input, old(written), written)
    {
      var num := NextByte();
      if num.None? { return None; }
      if num.value == 0 {
        SendCode(INVALID);
        return None;
      }
      r := NextAddresses(num.value, false);
    }

    method FindInFromOrTo(a: Address, from: Address, to: seq<Address>) returns (found: bool)
      ensures found == InFromOrTo(env, a, from, to)
    {
      var key := Key(env, a);
      if Key(env, from) == key { return true; }
      for i := 0 to |to|
        invariant key !in Keys(env, to[..i])
      {
        assert to[..i + 1] == to[..i] + [to[i]];
        if Key(env, to[i]) == key { return true; }
      }
      assert to[..|to|] == to;
      found := false;
    }

    method NextAddTo(f: Flags, from: Address, to: seq<Address>) returns (r: Option<AddTo>)
      modifies this
      ensures Performs(ReadAddTo(env, f, from, to, old(input)), r, input, old(written), written)
    {
      if !f.hasAddTo { return Some(AddTo(None, [])); }
      if !f.hasPid {
        SendCode(INVALID);
        return None;
      }
      var adder := NextAddress();
      if adder.None? {
        SendCode(INVALID);
        return None;
      }
      var inFromOrTo := FindInFromOrTo(adder.value, from, to);
      if !inFromOrTo {
        SendCode(INVALID);
        return None;
      }
      var num := NextByte();
      if num.None? { return None; }
      if num.value == 0 {
        SendCode(INVALID);
        return None;
      }
      var addrs := NextAddresses(num.value, true);
      if addrs.None? { return None; }
      r := Some(AddTo(adder, addrs.value));
    }

    method NextLead() returns (r: Option<Lead>)
      modifies this
      ensures Performs(ReadLead(old(input)), r, input, old(written), written)
    {
      var v := NextByte();
      if v.None? || v.value != 1 { return None; }
      var b := NextByte();
      if b.None? { return None; }
      var f := ByteFlags(b.value);
      if f.reserved {
        SendCode(INVALID);
        return None;
      }
      if f.hasAddTo && f.terminal {
        SendCode(INVALID);
        return None;
      }
      var pid: bytes := [];
      if f.hasPid {
        pid := NextUpTo(32);
        pid := Padded(pid);
      }
      r := Some(Lead(f, pid));
    }

    method NextTime() returns (r: Option<bytes>)
      modifies this
      ensures Performs(ReadTime(env, old(input)), r, input, old(written), written)
    {
      r := NextFull(8);
      if r.None? { return None; }
      if TooOld(env, r.value) {
        SendCode(PAST_TIME);
        return None;
      }
      if TooNew(env, r.value) {
        SendCode(FUTURE_TIME);
        return None;
      }
    }

    method NextType(common: bool) returns (r: Option<MediaType>)
      modifies this
      ensures Performs(ReadType(env, common, old(input)), r, input, old(written), written)
    {
      if common {
        var id := NextByte();
        if id.None? { return None; }
        if id.value !in env.media {
          SendCode(INVALID);
          return None;
        }
        return Some(MediaType(id.value, env.media[id.value]));
      }
      var name := NextSlice();
      if name.None? { return None; }
      if !Ascii(name.value) {
        SendCode(INVALID);
        return None;
      }
      r := Some(MediaType(0, name.value));
    }

    method NextSizes(deflate: bool) returns (r: Option<Sizes>)
      modifies this
      ensures Performs(ReadSizes(deflate, old(input)), r, input, old(written), written)
    {
      var b := NextFull(4);
      if b.None? { return None; }
      var expanded: u32 := 0;
      if deflate {
        var e := NextFull(4);
        if e.None? { return None; }
        expanded := FromLE32(e.value);
      }
      r := Some(Sizes(FromLE32(b.value), expanded));
    }

    method NextAttachmentLead(seen: set<bytes>, ghost acc: seq<Attachment>) returns (r: Option<AttachmentLead>)
      requires seen == Names(env, acc)
      modifies this
      ensures Performs(ReadAttachmentLead(env, acc, old(input)), r, input, old(written), written)
    {
      var b := NextByte();
      if b.None? { return None; }
      var f := ByteAttachmentFlags(b.value);
      if f.reserved != 0 {
        SendCode(INVALID);
        return None;
      }
      var t := NextType(f.commonType);
      if t.None? { return None; }
      var name := NextSlice();
      if name.None? { return None; }
      if !ValidFilename(env, name.value) || env.fold(name.value) in seen {
        SendCode(INVALID);
        return None;
      }
      r := Some(AttachmentLead(f, t.value, name.value));
    }

    method NextAttachment(seen: set<bytes>, ghost acc: seq<Attachment>) returns (r: Option<Attachment>)
      requires seen == Names(env, acc)
      modifies this
      ensures Performs(ReadAttachment(env, acc, old(input)), r, input, old(written), written)
    {
      var l := NextAttachmentLead(seen, acc);
      if l.None? { return None; }
      var sizes := NextSizes(l.value.flags.deflate);
      if sizes.None? { return None; }
      r := Some(Attachment(l.value.flags, l.value.mediaType.id, l.value.mediaType.name, l.value.filename,
                           sizes.value.wire, sizes.value.expanded));
    }

    /** Adds one attachment to both running totals, in wrapping uint32. */
    static method AddSizes(total: u32, expanded: u32, a: Attachment,
                           ghost atts: seq<Attachment>, ghost total0: u32, ghost expanded0: u32)
      returns (t: u32, e: u32)
      requires total == WrappedWire(total0, atts) && expanded == WrappedExpanded(expanded0, atts)
      ensures t == WrappedWire(total0, atts + [a]) && e == WrappedExpanded(expanded0, atts + [a])
    {
      assert (atts + [a])[..|atts|] == atts;
      e := (expanded + AttachmentExpanded(a)) % TWO32;
      t := (total + a.size) % TWO32;
    }

    /** The next of `left` attachments, and what that leaves to read. */
    method NextOfAttachments(ghost left: nat, seen: set<bytes>, ghost acc: seq<Attachment>)
      returns (a: Option<Attachment>)
      requires left > 0 && seen == Names(env, acc)
      modifies this
      ensures a.Some? ==>
        ReadAttachments(env, left, acc, old(input)) == ReadAttachments(env, left - 1, acc + [a.value], input) &&
        written == old(written) && Names(env, acc + [a.value]) == seen + {env.fold(a.value.filename)}
      ensures a.None? ==>
        Performs(ReadAttachments(env, left, acc, old(input)), None, input, old(written), written)
    {
      ReadAttachmentsStep(env, left, acc, input);
      a := NextAttachment(seen, acc);
      if a.Some? { NamesSnoc(env, acc, a.value); }
    }

    /** The loop of readAttachmentHeaders. */
    method NextAttachments(count: nat, total0: u32, expanded0: u32)
      returns (r: Option<seq<Attachment>>, total: u32, expanded: u32)
      modifies this
      ensures Performs(ReadAttachments(env, count, [], old(input)), r, input, old(written), written)
      ensures r.Some? ==> total == WrappedWire(total0, r.value) && expanded == WrappedExpanded(expanded0, r.value)
    {
      ghost var whole := ReadAttachments(env, count, [], input);
      ghost var left := count;
      total, expanded := total0, expanded0;
      var seen: set<bytes> := {};
      var atts: seq<Attachment> := [];
      for i := 0 to count
        invariant written == old(written)
        invariant seen == Names(env, atts)
        invariant total == WrappedWire(total0, atts) && expanded == WrappedExpanded(expanded0, atts)
        invariant left == count - i && whole == ReadAttachments(env, left, atts, input)
      {
        var a := NextOfAttachments(left, seen, atts);
        if a.None? { return None, total, expanded; }
        left := left - 1;
        seen := seen + {env.fold(a.value.filename)};
        total, expanded := AddSizes(total, expanded, a.value, atts, total0, expanded0);
        atts := atts + [a.value];
      }
      r := Some(atts);
    }

    method NextAttachmentList(deflate: bool, sizes: Sizes) returns (r: Option<seq<Attachment>>)
      modifies this
      ensures Performs(ReadAttachmentList(env, deflate, sizes, old(input)), r, input, old(written), written)
    {
      var count := NextByte();
      if count.None? { return None; }
      var total, expanded;
      r, total, expanded := NextAttachments(count.value, sizes.wire, PartExpanded(deflate, sizes.wire, sizes.expanded));
      if r.None? { return None; }
      if total > env.maxSize {
        SendCode(TOO_BIG);
        return None;
      }
      if expanded > env.maxExpanded {
        SendCode(TOO_BIG);
        return None;
      }
    }

    method NextRouting() returns (r: Option<Routing>)
      modifies this
      ensures Performs(ReadRouting(env, old(input)), r, input, old(written), written)
    {
      var lead := NextLead();
      if lead.None? { return None; }
      var from := NextAddress();
      if from.None? { return None; }
      var to := NextTo();
      if to.None? { return None; }
      var addTo := NextAddTo(lead.value.flags, from.value, to.value);
      if addTo.None? { return None; }
      r := Some(Routing(lead.value, from.value, to.value, addTo.value));
    }

    method NextDescription(f: Flags) returns (r: Option<Description>)
      modifies this
      ensures Performs(ReadDescription(env, f, old(input)), r, input, old(written), written)
    {
      var time := NextTime();
      if time.None? { return None; }
      var topic: Option<bytes> := Some([]);
      if !f.hasPid {
        topic := NextSlice();
        if topic.None? { return None; }
      }
      var t := NextType(f.commonType);
      if t.None? { return None; }
      r := Some(Description(time.value, topic.value, t.value));
    }

    method NextPayloads(f: Flags) returns (r: Option<Payloads>)
      modifies this
      ensures Performs(ReadPayloads(env, f, old(input)), r, input, old(written), written)
    {
      var sizes := NextSizes(f.deflate);
      if sizes.None? { return None; }
      if f.deflate && sizes.value.expanded > env.maxExpanded {
        SendCode(TOO_BIG);
        return None;
      }
      var atts := NextAttachmentList(f.deflate, sizes.value);
      if atts.None? { return None; }
      r := Some(Payloads(sizes.value, atts.value));
    }

    /** readHeader up to and including the attachment headers. */
    method NextHeader() returns (r: Option<Header>)
      modifies this
      ensures Performs(ReadHeader(env, old(input)), r, input, old(written), written)
    {
      var routing := NextRouting();
      if routing.None? { return None; }
      var f := routing.value.lead.flags;
      var d := NextDescription(f);
      if d.None? { return None; }
      var p := NextPayloads(f);
      if p.None? { return None; }
      r := Some(Assemble(routing.value, d.value, p.value));
    }
  }
}
