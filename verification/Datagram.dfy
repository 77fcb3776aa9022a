/** The indicator datagram (FMSG-006 version 1) of cmd/fmsgd/indicators.go. */
module Datagrams {
  import opened Prelude

  datatype Datagram = Datagram(hash: bytes, index: u16, ttl: byte, data: bytes)

  const VERSION: byte := 1
  const FIXED := 37
  const DATA_MAX := 64

  predicate IsClear(d: Datagram) { d.data == [] || d.ttl == 0 }

  function Marshal(d: Datagram): bytes {
    [VERSION] + d.hash + LE16(d.index) + [d.ttl, |d.data| % 256] + d.data
  }

  /** Empty, or one emoji within the size bound; `single` is emoji.IsSingle. */
  predicate ValidData(single: bytes -> bool, data: bytes) {
    data == [] || (|data| <= DATA_MAX && single(data))
  }

  predicate DatagramOk(single: bytes -> bool, d: Datagram) {
    |d.hash| == 32 && ValidData(single, d.data)
  }

  function ParseDatagram(single: bytes -> bool, b: bytes): Option<Datagram> {
    if |b| < FIXED || b[0] != VERSION then None
    else
      var n := b[36];
      if n > DATA_MAX || |b| != FIXED + n then None
      else if !ValidData(single, b[FIXED..]) then None
      else Some(Datagram(b[1..33], FromLE16(b[33..35]), b[35], b[FIXED..]))
  }

  /** Parsing accepts exactly the marshalled valid datagrams, and nothing trailing. */
  lemma DatagramCodec(single: bytes -> bool, b: bytes, d: Datagram)
    ensures ParseDatagram(single, b) == Some(d) <==> DatagramOk(single, d) && b == Marshal(d)
  {
    if ParseDatagram(single, b) == Some(d) {
      LE16Encodes(b[33..35]);
      assert b == [b[0]] + b[1..33] + b[33..35] + [b[35], b[36]] + b[37..];
    }
    if DatagramOk(single, d) && b == Marshal(d) {
      LE16RoundTrip(d.index);
      assert b[1..33] == d.hash;
      assert b[33..35] == LE16(d.index);
      assert b[37..] == d.data;
    }
  }
}
