/**
 * The TCP segment as a value: the fixed 20-byte header, the option area and
 * the payload, the `raw_header` / `raw_packet` serialisers and the decode
 * constructor's reading of a received segment.
 */
module TcpSegment {
  import opened Wrappers
  import opened Bytes
  import opened TcpOptions
  import opened OptionScan

  /** TCP_HEADER_LEN: the header without options. */
  const HeaderLen: nat := 20

  /** The nine control bits: NS lives in byte 12, the other eight form byte 13. */
  datatype Flags = Flags(ns: bool, crw: bool, ece: bool, urg: bool, ack: bool,
                         psh: bool, rst: bool, syn: bool, fin: bool)

  /** The attributes of a TcpPacket; `hlen` is the header length in bytes. */
  datatype Segment = Segment(
    sport: u16, dport: u16, seqNum: u32, ackNum: u32, hlen: nat, flags: Flags,
    win: u16, cksum: u16, urp: u16, options: seq<TcpOption>, data: seq<byte>)

  function Bit(b: bool): (r: nat)
    ensures r <= 1 && (r == 1 <==> b)
  {
    if b then 1 else 0
  }

  /** Byte 12 as packed: `hlen << 2 | ns` (hlen << 2 is even, so `|` adds). */
  function OffsetByte(hlen: nat, ns: bool): (r: nat)
    ensures r / 4 == hlen && r % 4 == Bit(ns)
  {
    hlen * 4 + Bit(ns)
  }

  /** struct.pack's "B" accepts byte 12 only below 256. */
  predicate HeaderFits(s: Segment)
  {
    OffsetByte(s.hlen, s.flags.ns) < 0x100
  }

  function FlagBit(b: bool): bv8
  {
    if b then 1 else 0
  }

  /** Byte 13 as packed: `crw << 7 | ece << 6 | ... | syn << 1 | fin`. */
  function FlagsBits(f: Flags): (r: bv8)
    ensures (r & 0x80 != 0) == f.crw && (r & 0x40 != 0) == f.ece && (r & 0x20 != 0) == f.urg
    ensures (r & 0x10 != 0) == f.ack && (r & 0x08 != 0) == f.psh && (r & 0x04 != 0) == f.rst
    ensures (r & 0x02 != 0) == f.syn && (r & 0x01 != 0) == f.fin
  {
    (FlagBit(f.crw) << 7) | (FlagBit(f.ece) << 6) | (FlagBit(f.urg) << 5) | (FlagBit(f.ack) << 4)
    | (FlagBit(f.psh) << 3) | (FlagBit(f.rst) << 2) | (FlagBit(f.syn) << 1) | FlagBit(f.fin)
  }

  function FlagsByte(f: Flags): (r: byte)
    ensures DecodeFlags(0, r) == f.(ns := false)
  {
    DecodeFlagsBits(f);
    FlagsBits(f) as int
  }

  lemma DecodeFlagsBits(f: Flags)
    ensures DecodeFlags(0, FlagsBits(f) as int) == f.(ns := false)
  {
    var y := FlagsBits(f);
    BitsToByteToBits(y);
    var g := DecodeFlags(0, y as int);
    assert g.crw == f.crw && g.ece == f.ece && g.urg == f.urg && g.ack == f.ack;
    assert g.psh == f.psh && g.rst == f.rst && g.syn == f.syn && g.fin == f.fin;
  }

  /** The decode constructor's reading of the flags: NS is bit 0 of byte 12, the rest byte 13 under its masks. */
  function DecodeFlags(b12: byte, b13: byte): (r: Flags)
    ensures r.ns <==> b12 % 2 == 1
    ensures FlagsBits(r) == b13 as bv8
  {
    var y := b13 as bv8;
    Flags(ns := b12 % 2 == 1, crw := y & 0x80 != 0, ece := y & 0x40 != 0,
          urg := y & 0x20 != 0, ack := y & 0x10 != 0, psh := y & 0x08 != 0,
          rst := y & 0x04 != 0, syn := y & 0x02 != 0, fin := y & 0x01 != 0)
  }

  /** `raw_header`: struct.pack("! HH L L BBH HH", ...) of the header fields. */
  function RawHeader(s: Segment): (r: seq<byte>)
    requires HeaderFits(s)
    ensures |r| == HeaderLen
    ensures r[16..18] == BE16(s.cksum)
  {
    BE16(s.sport) + BE16(s.dport) + BE32(s.seqNum) + BE32(s.ackNum)
    + [OffsetByte(s.hlen, s.flags.ns), FlagsByte(s.flags)]
    + BE16(s.win) + BE16(s.cksum) + BE16(s.urp)
  }

  /** `raw_packet`: header, then `raw_options`, then the payload. */
  function RawPacket(s: Segment): (r: seq<byte>)
    requires HeaderFits(s)
    ensures |r| == HeaderLen + |EncodeOptions(s.options)| + |s.data|
    ensures r[..HeaderLen] == RawHeader(s)
    ensures r[HeaderLen..HeaderLen + |EncodeOptions(s.options)|] == EncodeOptions(s.options)
    ensures r[HeaderLen + |EncodeOptions(s.options)|..] == s.data
  {
    RawHeader(s) + EncodeOptions(s.options) + s.data
  }

  /** Header length read from byte 12: `(b & 0b11110000) >> 2`. */
  function HeaderLenOf(b12: byte): (r: nat)
    ensures r % 4 == 0 && r <= 60
  {
    (b12 / 16) * 4
  }

  /**
   * The decode constructor. Fewer than 14 bytes fail on `raw_header[12]` or
   * `raw_header[13]` (IndexError), fewer than 20 on the unpacking of window,
   * checksum or urgent-data offset (struct.error). The header length is not
   * checked against the buffer: the option area is `raw_packet[20:hlen]` and
   * the payload `raw_packet[hlen:]`, both clamped as Python slices are.
   */
  function DecodeSegment(raw: seq<byte>): (r: Result<Segment, DecodeError>)
    ensures |raw| < 14 ==> r == Failure(IndexError)
    ensures 14 <= |raw| < HeaderLen ==> r == Failure(StructError)
    ensures r.Success? ==> |raw| >= HeaderLen && r.value.hlen == HeaderLenOf(raw[12])
  {
    if |raw| < 14 then Failure(IndexError)
    else if |raw| < HeaderLen then Failure(StructError)
    else
      var hlen := HeaderLenOf(raw[12]);
      var opts :- Scan(PySlice(raw, HeaderLen, hlen));
      Success(Segment(
        sport := FromBE16(raw[0..2]), dport := FromBE16(raw[2..4]),
        seqNum := FromBE32(raw[4..8]), ackNum := FromBE32(raw[8..12]),
        hlen := hlen, flags := DecodeFlags(raw[12], raw[13]),
        win := FromBE16(raw[14..16]), cksum := FromBE16(raw[16..18]), urp := FromBE16(raw[18..20]),
        options := opts, data := PySlice(raw, hlen, |raw|)))
  }

  // ---- Properties ----

  /** Every combination of flags survives packing into bytes 12 and 13 and reading back. */
  lemma FlagsRoundTrip(hlen: nat, f: Flags)
    requires OffsetByte(hlen, f.ns) < 0x100
    ensures DecodeFlags(OffsetByte(hlen, f.ns), FlagsByte(f)) == f
  {
    assert DecodeFlags(0, FlagsByte(f)) == f.(ns := false);
  }

  lemma BitsToByteToBits(v: bv8)
    ensures (v as int) as bv8 == v
  {
  }

  /** Packing the header length and reading it back agrees when it is a multiple of four. */
  lemma HeaderLenRoundTrip(hlen: nat, ns: bool)
    requires OffsetByte(hlen, ns) < 0x100
    ensures HeaderLenOf(OffsetByte(hlen, ns)) == hlen <==> hlen % 4 == 0
  {
  }

  /**
   * How the decode constructor splits a received segment: with 20 <= hlen <=
   * len, header, option area and payload partition it; a header length
   * beyond the buffer silently shortens the option area and leaves no
   * payload; one below 20 gives no option area and a payload that starts
   * inside the header.
   */
  lemma DecodeSplit(raw: seq<byte>)
    requires |raw| >= HeaderLen
    ensures var hlen := HeaderLenOf(raw[12]);
            HeaderLen <= hlen <= |raw| ==>
              raw == raw[..HeaderLen] + PySlice(raw, HeaderLen, hlen) + PySlice(raw, hlen, |raw|)
    ensures var hlen := HeaderLenOf(raw[12]);
            hlen > |raw| ==> PySlice(raw, HeaderLen, hlen) == raw[HeaderLen..] && PySlice(raw, hlen, |raw|) == []
    ensures var hlen := HeaderLenOf(raw[12]);
            hlen < HeaderLen ==> PySlice(raw, HeaderLen, hlen) == [] && PySlice(raw, hlen, |raw|) == raw[hlen..]
  {
    var hlen := HeaderLenOf(raw[12]);
    if HeaderLen <= hlen <= |raw| {
      assert raw == raw[..HeaderLen] + raw[HeaderLen..hlen] + raw[hlen..];
    }
  }

  /** The fixed header fields come back from `raw_packet` unchanged. */
  lemma {:induction false} HeaderFieldsRoundTrip(s: Segment, raw: seq<byte>)
    requires HeaderFits(s) && s.hlen % 4 == 0
    requires |raw| >= HeaderLen && raw[..HeaderLen] == RawHeader(s)
    ensures FromBE16(raw[0..2]) == s.sport && FromBE16(raw[2..4]) == s.dport
    ensures FromBE32(raw[4..8]) == s.seqNum && FromBE32(raw[8..12]) == s.ackNum
    ensures HeaderLenOf(raw[12]) == s.hlen && DecodeFlags(raw[12], raw[13]) == s.flags
    ensures FromBE16(raw[14..16]) == s.win && FromBE16(raw[16..18]) == s.cksum
    ensures FromBE16(raw[18..20]) == s.urp
  {
    var h := RawHeader(s);
    assert h[0..2] == BE16(s.sport) && h[2..4] == BE16(s.dport);
    assert h[4..8] == BE32(s.seqNum) && h[8..12] == BE32(s.ackNum);
    assert h[12] == OffsetByte(s.hlen, s.flags.ns) && h[13] == FlagsByte(s.flags);
    assert h[14..16] == BE16(s.win) && h[18..20] == BE16(s.urp);
    HeaderSlices(raw, h);
    BE16RoundTrip(s.sport);
    BE16RoundTrip(s.dport);
    BE32RoundTrip(s.seqNum);
    BE32RoundTrip(s.ackNum);
    BE16RoundTrip(s.win);
    BE16RoundTrip(s.cksum);
    BE16RoundTrip(s.urp);
    FlagsRoundTrip(s.hlen, s.flags);
    HeaderLenRoundTrip(s.hlen, s.flags.ns);
  }

  /** A buffer that starts with a header has that header's field slices. */
  lemma HeaderSlices(raw: seq<byte>, h: seq<byte>)
    requires |h| == HeaderLen && |raw| >= HeaderLen && raw[..HeaderLen] == h
    ensures raw[0..2] == h[0..2] && raw[2..4] == h[2..4] && raw[4..8] == h[4..8]
    ensures raw[8..12] == h[8..12] && raw[12] == h[12] && raw[13] == h[13]
    ensures raw[14..16] == h[14..16] && raw[16..18] == h[16..18] && raw[18..20] == h[18..20]
  {
  }

  /** Changing the checksum field changes bytes 16 and 17 of `raw_packet` and nothing else. */
  lemma CksumFieldSplice(s: Segment, c: u16)
    requires HeaderFits(s)
    ensures RawPacket(s.(cksum := c)) == RawPacket(s)[..16] + BE16(c) + RawPacket(s)[18..]
  {
    var t := s.(cksum := c);
    var rest := EncodeOptions(s.options) + s.data;
    assert RawPacket(s) == RawHeader(s) + rest by {
      RawPacketParts(s, rest);
    }
    assert RawPacket(t) == RawHeader(t) + rest by {
      RawPacketParts(t, rest);
    }
    HeaderCksumSplice(s, c);
    SpliceFront(RawHeader(s), BE16(c), rest);
  }

  lemma RawPacketParts(s: Segment, rest: seq<byte>)
    requires HeaderFits(s) && rest == EncodeOptions(s.options) + s.data
    ensures RawPacket(s) == RawHeader(s) + rest
  {
    ConcatAssoc(RawHeader(s), EncodeOptions(s.options), s.data);
  }

  lemma SpliceFront<T>(h: seq<T>, c: seq<T>, rest: seq<T>)
    requires |h| == HeaderLen && |c| == 2
    ensures (h[..16] + c + h[18..]) + rest == (h + rest)[..16] + c + (h + rest)[18..]
  {
    assert (h + rest)[..16] == h[..16];
    assert (h + rest)[18..] == h[18..] + rest;
  }

  lemma HeaderCksumSplice(s: Segment, c: u16)
    requires HeaderFits(s)
    ensures RawHeader(s.(cksum := c)) == RawHeader(s)[..16] + BE16(c) + RawHeader(s)[18..]
  {
    var t := s.(cksum := c);
    var front := BE16(s.sport) + BE16(s.dport) + BE32(s.seqNum) + BE32(s.ackNum)
                 + [OffsetByte(s.hlen, s.flags.ns), FlagsByte(s.flags)] + BE16(s.win);
    assert RawHeader(t) == front + BE16(c) + BE16(s.urp);
    assert RawHeader(s) == front + BE16(s.cksum) + BE16(s.urp);
    assert RawHeader(s)[..16] == front;
    assert RawHeader(s)[18..] == BE16(s.urp);
  }

  /**
   * A segment built with hlen = 20 + len(raw_options) (a multiple of four, as
   * the build constructor asserts) decodes back to itself, up to the scan's
   * reading of SACK-permitted options as unknown ones.
   */
  lemma {:induction false} SegmentRoundTrip(s: Segment)
    requires HeaderFits(s) && s.hlen % 4 == 0
    requires s.hlen == HeaderLen + |EncodeOptions(s.options)|
    requires AsWrittenChain(s.options)
    ensures DecodeSegment(RawPacket(s)) == Success(s.(options := Normalized(s.options)))
  {
    var raw := RawPacket(s);
    HeaderFieldsRoundTrip(s, raw);
    assert PySlice(raw, HeaderLen, s.hlen) == EncodeOptions(s.options);
    assert PySlice(raw, s.hlen, |raw|) == s.data;
    ScanRoundTrip(s.options);
  }

  /**
   * The opening segment of a connection from port 51234 to port 80, SYN with
   * sequence number 1000, window 64240 and an MSS of 1460: a 24-byte header.
   */
  function SynWithMss(): Segment
  {
    Segment(51234, 80, 1000, 0, 24, Flags(false, false, false, false, false, false, false, true, false),
            64240, 0, 0, [NewMss(1460)], [])
  }

  lemma SynWithMssExample()
    ensures RawPacket(SynWithMss()) == [0xC8, 0x22, 0x00, 0x50, 0x00, 0x00, 0x03, 0xE8, 0x00, 0x00, 0x00, 0x00,
                                         0x60, 0x02, 0xFA, 0xF0, 0x00, 0x00, 0x00, 0x00] + [0x02, 0x04, 0x05, 0xB4]
    ensures DecodeSegment(RawPacket(SynWithMss())) == Success(SynWithMss())
  {
    var s := SynWithMss();
    SynWithMssHeader();
    SynWithMssOptions();
    RawPacketParts(s, EncodeOptions(s.options) + s.data);
    assert EncodeOptions(s.options) + s.data == EncodeOptions(s.options);
    SegmentRoundTrip(s);
  }

  lemma SynWithMssHeader()
    ensures RawHeader(SynWithMss()) == [0xC8, 0x22, 0x00, 0x50, 0x00, 0x00, 0x03, 0xE8, 0x00, 0x00, 0x00, 0x00,
                                         0x60, 0x02, 0xFA, 0xF0, 0x00, 0x00, 0x00, 0x00]
  {
    assert FlagsBits(SynWithMss().flags) == 2;
  }

  lemma SynWithMssOptions()
    ensures var opts := SynWithMss().options;
            && EncodeOptions(opts) == [0x02, 0x04, 0x05, 0xB4]
            && AsWrittenChain(opts) && Normalized(opts) == opts
  {
  }
}
