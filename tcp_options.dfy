/**
 * The seven TCP option classes: each class's decode constructor (from the raw
 * bytes of one option) and its `raw_option` encoder.
 */
module TcpOptions {
  import opened Wrappers
  import opened Bytes

  const EolKind: byte := 0
  const EolLen: nat := 1
  const NopKind: byte := 1
  const NopLen: nat := 1
  const MssKind: byte := 2
  const MssLen: byte := 4
  const WscaleKind: byte := 3
  const WscaleLen: byte := 3
  const SackpermKind: byte := 4
  const SackpermLen: byte := 2
  const TimestampKind: byte := 8
  const TimestampLen: byte := 10

  /** Errors the Python code raises while decoding, and a scan that never ends. */
  datatype DecodeError =
    | IndexError   // indexing past the end of a bytes object
    | StructError  // struct.unpack on too few bytes, or struct.pack of a missing field
    | Diverges     // the option scan would repeat the same step forever
    | Malformed    // only the corrected scan: a length byte that cannot be consumed

  /** One option object; the kind and length bytes are kept as the object stores them. */
  datatype TcpOption =
    | Eol(kind: byte)
    | Nop(kind: byte)
    | Mss(kind: byte, length: byte, size: u16)
    | Sackperm(kind: byte, length: byte)
    | Wscale(kind: byte, length: byte, scale: byte)
    | Timestamp(kind: byte, length: byte, tsval: u32, tsecr: u32)
    | Unk(kind: byte, length: byte, data: seq<byte>)

  /** The class attribute `name` used by `get_option`. */
  function Name(o: TcpOption): string
  {
    match o
    case Eol(_) => "EOL"
    case Nop(_) => "NOP"
    case Mss(_, _, _) => "MSS"
    case Sackperm(_, _) => "SACKPERM"
    case Wscale(_, _, _) => "WSCALE"
    case Timestamp(_, _, _, _) => "TIMESTAMP"
    case Unk(_, _, _) => "UNKNOWN"
  }

  /** Two options have the same name exactly when they are of the same class. */
  lemma NameIdentifiesClass(a: TcpOption, b: TcpOption)
    ensures Name(a) == Name(b) <==>
              && a.Eol? == b.Eol? && a.Nop? == b.Nop? && a.Mss? == b.Mss? && a.Sackperm? == b.Sackperm?
              && a.Wscale? == b.Wscale? && a.Timestamp? == b.Timestamp? && a.Unk? == b.Unk?
  {
  }

  /** The `raw_option` property of each class. */
  function RawOption(o: TcpOption): (r: seq<byte>)
    ensures |r| >= 1 && r[0] == o.kind
    ensures !o.Eol? && !o.Nop? ==> |r| >= 2 && r[1] == o.length
    ensures o.Eol? || o.Nop? ==> |r| == 1
    ensures o.Mss? ==> |r| == 4
    ensures o.Sackperm? ==> |r| == 2
    ensures o.Wscale? ==> |r| == 3
    ensures o.Timestamp? ==> |r| == 10
    ensures o.Unk? ==> |r| == 2 + |o.data|
  {
    match o
    case Eol(k) => [k]
    case Nop(k) => [k]
    case Mss(k, l, s) => [k, l] + BE16(s)
    case Sackperm(k, l) => [k, l]
    case Wscale(k, l, s) => [k, l, s]
    case Timestamp(k, l, v, e) => [k, l] + BE32(v) + BE32(e)
    case Unk(k, l, d) => [k, l] + d
  }

  // ---- Decode constructors, applied to the bytes of one option ----
  //
  // Each Python constructor tests `if raw_option:`; an empty slice takes the
  // field-building branch with the missing field left as None. For MSS,
  // WSCALE and TIMESTAMP the scan then packs that option (through
  // `self.raw_options`), and struct.pack rejects None: that outcome is
  // StructError here.

  function ParseEol(ro: seq<byte>): (o: TcpOption)
    ensures o.Eol?
    ensures ro != [] ==> RawOption(o) == ro[..1]
    ensures ro == [] ==> o == NewEol()
  {
    if ro == [] then Eol(EolKind) else Eol(ro[0])
  }

  function ParseNop(ro: seq<byte>): (o: TcpOption)
    ensures o.Nop?
    ensures ro != [] ==> RawOption(o) == ro[..1]
    ensures ro == [] ==> o == NewNop()
  {
    if ro == [] then Nop(NopKind) else Nop(ro[0])
  }

  function ParseMss(ro: seq<byte>): (r: Result<TcpOption, DecodeError>)
    ensures r.Success? <==> |ro| >= 4
    ensures r.Success? ==> r.value.Mss? && RawOption(r.value) == ro[..4]
  {
    if ro == [] then Failure(StructError)
    else if |ro| < 2 then Failure(IndexError)
    else if |ro| < 4 then Failure(StructError)
    else
      FromBE16RoundTrip(ro[2..4]);
      Success(Mss(ro[0], ro[1], FromBE16(ro[2..4])))
  }

  function ParseSackperm(ro: seq<byte>): (r: Result<TcpOption, DecodeError>)
    ensures r.Success? <==> |ro| != 1
    ensures r.Success? && ro != [] ==> r.value.Sackperm? && RawOption(r.value) == ro[..2]
  {
    if ro == [] then Success(Sackperm(SackpermKind, SackpermLen))
    else if |ro| < 2 then Failure(IndexError)
    else Success(Sackperm(ro[0], ro[1]))
  }

  function ParseWscale(ro: seq<byte>): (r: Result<TcpOption, DecodeError>)
    ensures r.Success? <==> |ro| >= 3
    ensures r.Success? ==> r.value.Wscale? && RawOption(r.value) == ro[..3]
  {
    if ro == [] then Failure(StructError)
    else if |ro| < 3 then Failure(IndexError)
    else Success(Wscale(ro[0], ro[1], ro[2]))
  }

  function ParseTimestamp(ro: seq<byte>): (r: Result<TcpOption, DecodeError>)
    ensures r.Success? <==> |ro| >= 10
    ensures r.Success? ==> r.value.Timestamp? && RawOption(r.value) == ro[..10]
  {
    if ro == [] then Failure(StructError)
    else if |ro| < 2 then Failure(IndexError)
    else if |ro| < 10 then Failure(StructError)
    else
      var v := FromBE32(ro[2..6]);
      var e := FromBE32(ro[6..10]);
      FromBE32RoundTrip(ro[2..6]);
      FromBE32RoundTrip(ro[6..10]);
      assert ro[..10] == [ro[0], ro[1]] + ro[2..6] + ro[6..10];
      Success(Timestamp(ro[0], ro[1], v, e))
  }

  /**
   * TcpOptUnk as written: the payload kept is `raw_option[2 : opt_len - 2]`,
   * so an option whose length byte is 3 or more loses bytes.
   */
  function ParseUnk(ro: seq<byte>): (r: Result<TcpOption, DecodeError>)
    ensures r.Success? <==> |ro| >= 2
    ensures r.Success? ==> r.value.Unk? && r.value.kind == ro[0] && r.value.length == ro[1]
    ensures r.Success? && ro[1] as int == |ro| ==>
              r.value.data == if |ro| >= 4 then ro[2..|ro| - 2] else []
  {
    if |ro| < 2 then Failure(IndexError)
    else Success(Unk(ro[0], ro[1], PySlice(ro, 2, ro[1] as int - 2)))
  }

  /** TcpOptUnk as evidently intended: the payload is `raw_option[2 : opt_len]`. */
  function ParseUnkFixed(ro: seq<byte>): (r: Result<TcpOption, DecodeError>)
    ensures r.Success? <==> |ro| >= 2
    ensures r.Success? && ro[1] as int == |ro| ==> r.value.Unk? && RawOption(r.value) == ro
  {
    if |ro| < 2 then Failure(IndexError)
    else Success(Unk(ro[0], ro[1], PySlice(ro, 2, ro[1] as int)))
  }

  /** The dispatch of the scan's non-EOL, non-NOP branches: kind 4 has no branch of its own. */
  function ParseOption(kind: byte, ro: seq<byte>): (r: Result<TcpOption, DecodeError>)
    ensures r.Success? ==> (r.value.Mss? <==> kind == MssKind) && (r.value.Wscale? <==> kind == WscaleKind)
                           && (r.value.Timestamp? <==> kind == TimestampKind)
                           && (r.value.Unk? <==> kind !in {MssKind, WscaleKind, TimestampKind})
    ensures r.Success? ==> ro != [] && r.value.kind == ro[0]
  {
    if kind == MssKind then ParseMss(ro)
    else if kind == WscaleKind then ParseWscale(ro)
    else if kind == TimestampKind then ParseTimestamp(ro)
    else ParseUnk(ro)
  }

  /** The same dispatch with the corrected TcpOptUnk. */
  function ParseOptionFixed(kind: byte, ro: seq<byte>): Result<TcpOption, DecodeError>
  {
    if kind == MssKind then ParseMss(ro)
    else if kind == WscaleKind then ParseWscale(ro)
    else if kind == TimestampKind then ParseTimestamp(ro)
    else ParseUnkFixed(ro)
  }

  // ---- Field-building constructors ----

  function NewEol(): (o: TcpOption)
    ensures Canonical(o) && RawOption(o) == [EolKind]
  {
    Eol(EolKind)
  }

  function NewNop(): (o: TcpOption)
    ensures Canonical(o) && RawOption(o) == [NopKind]
  {
    Nop(NopKind)
  }

  function NewMss(size: u16): (o: TcpOption)
    ensures Canonical(o) && RawOption(o) == [MssKind, MssLen] + BE16(size)
  {
    Mss(MssKind, MssLen, size)
  }

  function NewSackperm(): (o: TcpOption)
    ensures Canonical(o) && RawOption(o) == [SackpermKind, SackpermLen]
  {
    Sackperm(SackpermKind, SackpermLen)
  }

  /** As written: the kind and length are those of MSS, so the length byte says 4 for 3 bytes. */
  function NewWscale(scale: byte): (o: TcpOption)
    ensures RawOption(o) == [MssKind, MssLen, scale]
    ensures !Canonical(o) && |RawOption(o)| != o.length as int
  {
    Wscale(MssKind, MssLen, scale)
  }

  /** As written: the kind and length are those of MSS, so the length byte says 4 for 10 bytes. */
  function NewTimestamp(tsval: u32, tsecr: u32): (o: TcpOption)
    ensures RawOption(o) == [MssKind, MssLen] + BE32(tsval) + BE32(tsecr)
    ensures !Canonical(o) && |RawOption(o)| != o.length as int
  {
    Timestamp(MssKind, MssLen, tsval, tsecr)
  }

  function NewWscaleFixed(scale: byte): TcpOption { Wscale(WscaleKind, WscaleLen, scale) }

  function NewTimestampFixed(tsval: u32, tsecr: u32): TcpOption { Timestamp(TimestampKind, TimestampLen, tsval, tsecr) }

  // ---- Well-formed options ----

  /** An option whose kind and length bytes are the ones its class is defined with. */
  predicate Canonical(o: TcpOption)
  {
    match o
    case Eol(k) => k == EolKind
    case Nop(k) => k == NopKind
    case Mss(k, l, _) => k == MssKind && l == MssLen
    case Sackperm(k, l) => k == SackpermKind && l == SackpermLen
    case Wscale(k, l, _) => k == WscaleKind && l == WscaleLen
    case Timestamp(k, l, _, _) => k == TimestampKind && l == TimestampLen
    case Unk(k, l, d) =>
      k !in {EolKind, NopKind, MssKind, WscaleKind, TimestampKind} && l as int == |d| + 2
  }

  /** The scan has no SACK-permitted branch: such an option comes back as an unknown one. */
  function Normalize(o: TcpOption): TcpOption
  {
    if o.Sackperm? then Unk(o.kind, o.length, []) else o
  }

  lemma CanonicalLength(o: TcpOption)
    requires Canonical(o) && !o.Eol? && !o.Nop?
    ensures |RawOption(o)| == o.length as int && o.length >= 2
  {
  }

  lemma NormalizeKeepsBytes(o: TcpOption)
    ensures RawOption(Normalize(o)) == RawOption(o)
    ensures Canonical(o) ==> Canonical(Normalize(o))
  {
  }

  /**
   * Each canonical option decodes, from exactly its own bytes, to itself (a
   * SACK-permitted one to the unknown option with the same bytes). As written,
   * this holds for an unknown option only when it has no payload.
   */
  lemma {:induction false} ParseOptionRoundTrip(o: TcpOption)
    requires Canonical(o) && !o.Eol? && !o.Nop?
    requires o.Unk? ==> o.data == []
    ensures ParseOption(o.kind, RawOption(o)) == Success(Normalize(o))
  {
    var ro := RawOption(o);
    match o
    case Mss(k, l, s) =>
      assert ro[2..4] == BE16(s);
      BE16RoundTrip(s);
    case Sackperm(k, l) =>
    case Wscale(k, l, s) =>
    case Timestamp(k, l, v, e) =>
      assert ro[2..6] == BE32(v);
      assert ro[6..10] == BE32(e);
      BE32RoundTrip(v);
      BE32RoundTrip(e);
    case Unk(k, l, d) =>
  }

  /** With the corrected TcpOptUnk, every canonical option round-trips, payload included. */
  lemma {:induction false} ParseOptionFixedRoundTrip(o: TcpOption)
    requires Canonical(o) && !o.Eol? && !o.Nop?
    ensures ParseOptionFixed(o.kind, RawOption(o)) == Success(Normalize(o))
  {
    var ro := RawOption(o);
    match o
    case Mss(k, l, s) =>
      assert ro[2..4] == BE16(s);
      BE16RoundTrip(s);
    case Sackperm(k, l) =>
    case Wscale(k, l, s) =>
    case Timestamp(k, l, v, e) =>
      assert ro[2..6] == BE32(v);
      assert ro[6..10] == BE32(e);
      BE32RoundTrip(v);
      BE32RoundTrip(e);
    case Unk(k, l, d) =>
      assert ro[2..] == d;
  }

  /**
   * The field-built MSS option encodes to [2, 4, hi, lo], and the decode
   * constructor gives back the same size.
   */
  lemma NewMssRoundTrip(size: u16)
    ensures RawOption(NewMss(size)) == [MssKind, MssLen] + BE16(size)
    ensures ParseMss(RawOption(NewMss(size))) == Success(NewMss(size))
  {
    assert RawOption(NewMss(size))[2..4] == BE16(size);
    BE16RoundTrip(size);
  }

  /** A field-built SACK-permitted option encodes to [4, 2] and decodes back. */
  lemma NewSackpermRoundTrip()
    ensures RawOption(NewSackperm()) == [SackpermKind, SackpermLen]
    ensures ParseSackperm(RawOption(NewSackperm())) == Success(NewSackperm())
  {
  }

  /** A window-scale option encodes to 3 bytes and its decode constructor gives back the fields. */
  lemma WscaleRoundTrip(k: byte, l: byte, scale: byte)
    ensures |RawOption(Wscale(k, l, scale))| == 3
    ensures ParseWscale(RawOption(Wscale(k, l, scale))) == Success(Wscale(k, l, scale))
  {
  }

  /** A timestamp option encodes to 10 bytes and its decode constructor gives back the fields. */
  lemma {:induction false} TimestampRoundTrip(k: byte, l: byte, tsval: u32, tsecr: u32)
    ensures |RawOption(Timestamp(k, l, tsval, tsecr))| == 10
    ensures ParseTimestamp(RawOption(Timestamp(k, l, tsval, tsecr))) == Success(Timestamp(k, l, tsval, tsecr))
  {
    var ro := RawOption(Timestamp(k, l, tsval, tsecr));
    assert ro[2..6] == BE32(tsval);
    assert ro[6..10] == BE32(tsecr);
    BE32RoundTrip(tsval);
    BE32RoundTrip(tsecr);
  }

  /**
   * The corrected window-scale and timestamp builders give canonical options
   * that the decode constructor of their kind reads back unchanged.
   */
  lemma FixedBuildersRoundTrip(scale: byte, tsval: u32, tsecr: u32)
    ensures Canonical(NewWscaleFixed(scale)) && Canonical(NewTimestampFixed(tsval, tsecr))
    ensures ParseOption(WscaleKind, RawOption(NewWscaleFixed(scale))) == Success(NewWscaleFixed(scale))
    ensures ParseOption(TimestampKind, RawOption(NewTimestampFixed(tsval, tsecr)))
            == Success(NewTimestampFixed(tsval, tsecr))
  {
    ParseOptionRoundTrip(NewWscaleFixed(scale));
    ParseOptionRoundTrip(NewTimestampFixed(tsval, tsecr));
  }

  /** As written, an unknown option with a payload is read back without its last two bytes... */
  lemma UnkLosesPayload()
    ensures ParseUnk([9, 4, 0xAA, 0xBB]) == Success(Unk(9, 4, []))
    ensures RawOption(Unk(9, 4, [])) == [9, 4]
  {
  }

  /** ...while the corrected constructor keeps it and re-encodes to the same bytes. */
  lemma {:induction false} UnkFixedRoundTrip(k: byte, d: seq<byte>)
    requires |d| + 2 < 0x100
    ensures ParseUnkFixed(RawOption(Unk(k, (|d| + 2) as byte, d))) == Success(Unk(k, (|d| + 2) as byte, d))
  {
    var ro := RawOption(Unk(k, (|d| + 2) as byte, d));
    assert ro[2..] == d;
  }
}
