/**
 * The TcpPacket object: its attributes, the two constructors (decoding a
 * received segment, building one to send), `raw_options`, `get_option`,
 * `__len__` and `get_raw_packet`, which stores the checksum in place.
 */
module TcpPackets {
  import opened Wrappers
  import opened Bytes
  import opened TcpOptions
  import opened OptionScan
  import opened TcpSegment
  import opened TcpChecksum

  /** `get_option`'s answer: the first option whose class name is `name`. */
  function FirstNamed(opts: seq<TcpOption>, name: string): (r: Option<TcpOption>)
    ensures r.None? <==> forall k :: 0 <= k < |opts| ==> Name(opts[k]) != name
    ensures r.Some? ==> exists k :: 0 <= k < |opts| && opts[k] == r.value && Name(opts[k]) == name
                                    && forall j :: 0 <= j < k ==> Name(opts[j]) != name
  {
    if opts == [] then None
    else if Name(opts[0]) == name then Some(opts[0])
    else
      var r := FirstNamed(opts[1..], name);
      assert forall k :: 1 <= k < |opts| ==> opts[k] == opts[1..][k - 1];
      if r.Some? then
        var k :| 0 <= k < |opts[1..]| && opts[1..][k] == r.value && Name(opts[1..][k]) == name
                 && forall j :: 0 <= j < k ==> Name(opts[1..][j]) != name;
        assert opts[k + 1] == r.value && forall j :: 0 <= j < k + 1 ==> Name(opts[j]) != name;
        r
      else r
  }

  class TcpPacket {
    var sport: u16
    var dport: u16
    var seqNum: u32
    var ackNum: u32
    var hlen: nat
    var flags: Flags
    var win: u16
    var cksum: u16
    var urp: u16
    var options: seq<TcpOption>
    var data: seq<byte>

    /** The attributes as one value. */
    function Model(): Segment
      reads this
    {
      Segment(sport, dport, seqNum, ackNum, hlen, flags, win, cksum, urp, options, data)
    }

    /**
     * The build constructor: the checksum starts at 0 and the header length
     * is 20 plus the length of `raw_options`, which must be a multiple of 4.
     */
    constructor Build(sport: u16, dport: u16, seqNum: u32, ackNum: u32, flags: Flags,
                      win: u16, urp: u16, options: seq<TcpOption>, data: seq<byte>)
      requires (HeaderLen + |EncodeOptions(options)|) % 4 == 0
      ensures Model() == Segment(sport, dport, seqNum, ackNum, HeaderLen + |EncodeOptions(options)|,
                                 flags, win, 0, urp, options, data)
    {
      this.sport, this.dport, this.seqNum, this.ackNum := sport, dport, seqNum, ackNum;
      this.flags, this.win, this.cksum, this.urp := flags, win, 0, urp;
      this.options, this.data := options, data;
      this.hlen := 0;
      new;
      var raw := RawOptions();
      hlen := HeaderLen + |raw|;
    }

    /** The fixed header fields and the payload of a received segment, before its options are read. */
    constructor Parsed(raw: seq<byte>)
      requires |raw| >= HeaderLen
      ensures var h := HeaderLenOf(raw[12]);
              Model() == Segment(FromBE16(raw[0..2]), FromBE16(raw[2..4]), FromBE32(raw[4..8]),
                                 FromBE32(raw[8..12]), h, DecodeFlags(raw[12], raw[13]),
                                 FromBE16(raw[14..16]), FromBE16(raw[16..18]), FromBE16(raw[18..20]),
                                 [], PySlice(raw, h, |raw|))
    {
      var h := HeaderLenOf(raw[12]);
      data := PySlice(raw, h, |raw|);
      sport := FromBE16(raw[0..2]);
      dport := FromBE16(raw[2..4]);
      seqNum := FromBE32(raw[4..8]);
      ackNum := FromBE32(raw[8..12]);
      hlen := h;
      flags := DecodeFlags(raw[12], raw[13]);
      win := FromBE16(raw[14..16]);
      cksum := FromBE16(raw[16..18]);
      urp := FromBE16(raw[18..20]);
      options := [];
    }

    /**
     * The decode constructor: header fields, then the option scan over
     * `raw_packet[20:hlen]`.
     */
    static method Decode(raw: seq<byte>) returns (r: Result<TcpPacket, DecodeError>)
      ensures r.Failure? ==> DecodeSegment(raw) == Failure(r.error)
      ensures r.Success? ==> fresh(r.value) && DecodeSegment(raw) == Success(r.value.Model())
    {
      if |raw| < 14 {
        return Failure(IndexError);
      }
      if |raw| < HeaderLen {
        return Failure(StructError);
      }
      var area := PySlice(raw, HeaderLen, HeaderLenOf(raw[12]));
      var p := new TcpPacket.Parsed(raw);
      var err := p.ReadOptions(area);
      if err.Some? {
        return Failure(err.value);
      }
      return Success(p);
    }

    /**
     * The decode constructor's option loop over `area`: each option is
     * appended to the object's list, and the cursor advances by byte i + 1
     * of the list's re-encoding.
     */
    method ReadOptions(area: seq<byte>) returns (err: Option<DecodeError>)
      requires options == []
      modifies this`options
      ensures err.None? ==> Scan(area) == Success(options)
      ensures err.Some? ==> Scan(area) == Failure(err.value)
    {
      var i: nat := 0;
      while i < |area|
        invariant ScanFrom(area, i, options) == Scan(area)
        decreases |area| - i
      {
        ghost var prev := options;
        if area[i] == EolKind {
          options := options + [Eol(area[i])];
          ScanFromEolNop(area, i, prev);
          return None;
        } else if area[i] == NopKind {
          options := options + [Nop(area[i])];
          ScanFromEolNop(area, i, prev);
          i := i + 1;
        } else {
          var r := ReadOtherOption(area, i);
          if r.Failure? {
            return Some(r.error);
          }
          i := r.value;
        }
      }
      return None;
    }

    /**
     * One pass of the loop body on a kind other than EOL and NOP: the option is
     * decoded from its slice, appended, and the cursor moves by byte i + 1 of
     * the re-encoded list.
     */
    method ReadOtherOption(area: seq<byte>, i: nat) returns (r: Result<nat, DecodeError>)
      requires OtherKindAt(area, i)
      modifies this`options
      ensures r.Success? ==> i < r.value && ScanFrom(area, i, old(options)) == ScanFrom(area, r.value, options)
      ensures r.Failure? ==> ScanFrom(area, i, old(options)) == Failure(r.error)
    {
      ghost var prev := options;
      if i + 1 >= |area| {
        ScanFromShort(area, i, prev);
        return Failure(IndexError);
      }
      var o := ParseOption(area[i], PySlice(area, i, i + area[i + 1] as int));
      if o.Failure? {
        ScanFromBadOption(area, i, prev, o.error);
        return Failure(o.error);
      }
      options := options + [o.value];
      var enc := RawOptions();
      if i + 1 >= |enc| {
        ScanFromNoLengthByte(area, i, prev, o.value);
        return Failure(IndexError);
      }
      if enc[i + 1] == 0 {
        ScanFromStuck(area, i, prev, o.value);
        return Failure(Diverges);
      }
      var next := i + enc[i + 1];
      ScanFromAdvance(area, i, prev, o.value, options, enc, next);
      return Success(next);
    }

    /** `raw_options`: the options' encodings concatenated in list order. */
    method RawOptions() returns (r: seq<byte>)
      ensures r == EncodeOptions(options)
    {
      r := [];
      for k := 0 to |options|
        invariant r == EncodeOptions(options[..k])
      {
        assert options[..k + 1] == options[..k] + [options[k]];
        EncodeOptionsSnoc(options[..k], options[k]);
        r := r + RawOption(options[k]);
      }
      assert options[..|options|] == options;
    }

    /** `get_option`: the first option of that name, or none. */
    method GetOption(name: string) returns (r: Option<TcpOption>)
      ensures r == FirstNamed(options, name)
    {
      for k := 0 to |options|
        invariant FirstNamed(options, name) == FirstNamed(options[k..], name)
      {
        if Name(options[k]) == name {
          return Some(options[k]);
        }
        assert options[k..][1..] == options[k + 1..];
      }
      return None;
    }

    /** `__len__`: the length of `raw_packet`. */
    function Length(): (n: nat)
      reads this
      requires HeaderFits(Model())
      ensures n == |RawPacket(Model())|
      ensures hlen == HeaderLen + |EncodeOptions(options)| ==> n == hlen + |data|
    {
      HeaderLen + |EncodeOptions(options)| + |data|
    }

    /**
     * `get_raw_packet`: store the checksum computed over the pseudo-header and
     * the current `raw_packet`, then return `raw_packet`. Behind a 12-byte
     * pseudo-header the stored value is the checksum of the returned bytes.
     */
    method GetRawPacket(pseudo: seq<byte>) returns (raw: seq<byte>)
      requires HeaderFits(Model())
      requires |pseudo| % 2 == 0 && |pseudo| + |RawPacket(Model())| > 2 * CksumWord + 1
      modifies this`cksum
      ensures cksum == ComputeCksum(pseudo, RawPacket(old(Model())))
      ensures Model() == old(Model()).(cksum := cksum)
      ensures raw == RawPacket(Model()) && raw[16..18] == BE16(cksum)
      ensures |pseudo| == PseudoHeaderLen ==> ComputeCksum(pseudo, raw) == cksum
    {
      cksum := ComputeCksum(pseudo, RawPacket(Model()));
      raw := RawPacket(Model());
      if |pseudo| == PseudoHeaderLen {
        CksumStable(pseudo, old(Model()));
      }
    }
  }
}
