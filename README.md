# TCP segment codec of a user-space TCP/IP stack, in Dafny

This project models the TCP packet class of a small Python TCP/IP stack
(`ps_tcp.py`) and proves properties of it. The class does four jobs:

- It decodes a received segment: the 20-byte fixed header, the nine control
  bits, the variable-length option area and the payload.
- It builds a segment from fields, with its checksum zeroed and its header
  length derived from the encoded options.
- It serialises a segment (`raw_header`, `raw_options`, `raw_packet`).
- It computes the Internet checksum over a caller-supplied IP pseudo-header,
  then stores it in place (`get_raw_packet`).

The seven option classes (End-Of-List, No-Operation, MSS, SACK-permitted,
window scale, timestamp, unknown) are modelled with their decode
constructors, field-building constructors and `raw_option` encoders.

Modules:

- `Wrappers`: `Option` and `Result`.
- `Bytes`: byte and 16/32-bit integer types, big-endian packing as
  `struct.pack("!H" / "!L")` does it, and Python's clamping slice
  `s[a:b]` (`PySlice`).
- `TcpOptions`: the option constants, the `TcpOption` datatype, each class's
  decode constructor (`ParseMss`, …), its field builder (`NewMss`, …) and
  `raw_option` (`RawOption`).
- `OptionScan`: `raw_options` (`EncodeOptions`) and the decode constructor's
  option loop as a step function (`StepAt`, `ScanFrom`, `Scan`). Next to it
  is the evidently intended scan (`StepFixedAt`, `ScanFixed`).
- `TcpSegment`: the segment as a value (`Segment`, `Flags`), `raw_header`,
  `raw_packet` and the decode constructor as a function (`DecodeSegment`).
- `TcpChecksum`: `compute_cksum` as written (`ComputeCksum`), the intended
  fold-until-no-carry (`FoldAll`, `ComputeCksumFixed`), and the receiver's
  one's-complement sum (`OnesComplementSum`).
- `TcpPackets`: the `TcpPacket` object as a Dafny `class` whose fields are
  its attributes. It has the build constructor (`Build`), the decode
  constructor (`Decode`, with its option loop `ReadOptions` appending to the
  object's list), `raw_options`, `get_option`, `__len__` and
  `get_raw_packet`. `get_raw_packet` updates the checksum field in place.
  Each method is proved against the functions of the modules above.

A Python exception during decoding is a `DecodeError` value:

- `IndexError`: indexing past the end of a bytes object.
- `StructError`: `struct.unpack` on too few bytes, or `struct.pack` of a
  field left as `None`.
- `Diverges`: an option step that does not move the cursor. The Python loop
  then runs forever; `StuckStepRepeats` proves that the same step repeats.

Where the code differs from what it evidently intends, the main model (the
`TcpPacket` class and the functions it is proved against) follows the code
as written. The corrected definitions sit beside it, with their intended
properties proved; see "Findings".

Where the code departs from RFC 793, the model follows the code:

- A decode failure is whatever Python raises (`IndexError`, `struct.error`).
  The decoder has no error of its own for a buffer shorter than its header
  length or for malformed options.
- A header length larger than the buffer is not rejected. The option area
  and payload are clamped slices.
- The scan advances by a byte of the re-encoded option list, not by the
  option's own length byte.
- An unknown option keeps only part of its payload.
- A SACK-permitted option is decoded as an unknown option, because the
  scan has no branch for kind 4.

## Model

| member | source | states |
|---|---|---|
| Bytes.BE16RoundTrip | ps_tcp.py:84-85 | unpacking "!H" after packing it gives the value back |
| Bytes.FromBE16RoundTrip | ps_tcp.py:313 | packing "!H" after unpacking two bytes gives the bytes back |
| Bytes.BE32RoundTrip | ps_tcp.py:86-87 | unpacking "!L" after packing it gives the value back |
| Bytes.FromBE32RoundTrip | ps_tcp.py:380-381 | packing "!L" after unpacking four bytes gives the bytes back |
| Bytes.PySlice | ps_tcp.py:79-81 | Python slicing: an in-range slice is the Dafny slice, a bound past the end is clamped, an empty or reversed range gives nothing |
| TcpOptions.NameIdentifiesClass | ps_tcp.py:269-399 | the `name` class attributes (`Name`) tell the seven classes apart: two options have the same name exactly when they are of the same class |
| TcpOptions.RawOption | ps_tcp.py:277-408 | each class's `raw_option` starts with its kind byte, then its length byte, and has the size its struct format fixes (1, 4, 2, 3, 10, or 2 plus the payload) |
| TcpOptions.ParseEol | ps_tcp.py:271-275 | EOL from a non-empty slice re-encodes to the slice's first byte; from an empty one it is the default EOL |
| TcpOptions.ParseNop | ps_tcp.py:290-294 | NOP from a non-empty slice re-encodes to the slice's first byte; from an empty one it is the default NOP |
| TcpOptions.ParseMss | ps_tcp.py:309-317 | succeeds exactly when the slice has at least 4 bytes, and then re-encodes to those 4 bytes |
| TcpOptions.ParseSackperm | ps_tcp.py:332-338 | fails exactly on a 1-byte slice; a non-empty success re-encodes to the first 2 bytes |
| TcpOptions.ParseWscale | ps_tcp.py:353-361 | succeeds exactly when the slice has at least 3 bytes, and then re-encodes to those 3 bytes |
| TcpOptions.ParseTimestamp | ps_tcp.py:376-386 | succeeds exactly when the slice has at least 10 bytes, and then re-encodes to those 10 bytes |
| TcpOptions.ParseUnk | ps_tcp.py:401-404 | succeeds exactly on 2 or more bytes, keeping kind and length; for a consistent length byte the payload kept is `raw_option[2:len-2]` |
| TcpOptions.ParseUnkFixed | ps_tcp.py:401-408 | corrected TcpOptUnk: a slice whose length byte matches its size re-encodes to exactly that slice |
| TcpOptions.ParseOption | ps_tcp.py:115-129 | the scan's dispatch on the kind byte: a decoded option is MSS exactly for kind 2, window scale for kind 3, timestamp for kind 8 and unknown for every other kind (SACK-permitted's kind 4 included), and its kind is the first byte of its slice |
| TcpOptions.NewEol | ps_tcp.py:274-275 | the field-built EOL option is canonical and encodes to [0] |
| TcpOptions.NewNop | ps_tcp.py:293-294 | the field-built NOP option is canonical and encodes to [1] |
| TcpOptions.NewMss | ps_tcp.py:314-317 | the field-built MSS option is canonical and encodes to [2, 4] followed by the size in network order |
| TcpOptions.NewSackperm | ps_tcp.py:336-338 | the field-built SACK-permitted option is canonical and encodes to [4, 2] |
| TcpOptions.NewWscale | ps_tcp.py:358-361 | as written, the field-built window-scale option encodes to [2, 4, scale]: MSS's kind and a length byte of 4 for 3 bytes, so it is not canonical |
| TcpOptions.NewTimestamp | ps_tcp.py:382-386 | as written, the field-built timestamp option encodes to [2, 4] and the two 32-bit values: MSS's kind and a length byte of 4 for 10 bytes, so it is not canonical |
| TcpOptions.CanonicalLength | ps_tcp.py:252-263 | an option with its class's kind and length constants encodes to as many bytes as its length byte says |
| TcpOptions.ParseOptionRoundTrip | ps_tcp.py:304-404 | every canonical option other than EOL/NOP decodes from its own bytes to itself (SACK-permitted to the unknown option with the same bytes; unknown only without payload) |
| TcpOptions.ParseOptionFixedRoundTrip | ps_tcp.py:304-408 | with the corrected TcpOptUnk, every canonical option round-trips, payload included |
| TcpOptions.NewMssRoundTrip | ps_tcp.py:309-321 | the field-built MSS option encodes to [2, 4, size] and decodes back to itself |
| TcpOptions.NewSackpermRoundTrip | ps_tcp.py:332-342 | the field-built SACK-permitted option encodes to [4, 2] and decodes back to itself |
| TcpOptions.WscaleRoundTrip | ps_tcp.py:353-365 | any window-scale option encodes to 3 bytes and decodes back to itself |
| TcpOptions.TimestampRoundTrip | ps_tcp.py:376-390 | any timestamp option encodes to 10 bytes and decodes back to itself |
| TcpOptions.FixedBuildersRoundTrip | ps_tcp.py:358-386 | the corrected window-scale and timestamp builders are canonical and decode back to themselves |
| TcpOptions.UnkLosesPayload | ps_tcp.py:404 | as written, [9, 4, 0xAA, 0xBB] decodes to an unknown option with no payload, which re-encodes to [9, 4] |
| TcpOptions.UnkFixedRoundTrip | ps_tcp.py:401-408 | the corrected TcpOptUnk gives back any payload unchanged |
| OptionScan.EncodeOptions | ps_tcp.py:213-222 | `raw_options` has at least one byte per option and starts with the first option's kind byte |
| OptionScan.EncodeOptionsAppend | ps_tcp.py:213-222 | `raw_options` of two concatenated lists is the concatenation of their `raw_options` |
| OptionScan.EncodeOptionsSnoc | ps_tcp.py:219-220 | appending an option extends `raw_options` by that option's bytes only |
| OptionScan.EncodeNormalized | ps_tcp.py:327-342 | reading SACK-permitted as unknown does not change any option list's encoding |
| OptionScan.StepAt | ps_tcp.py:106-129 | one loop iteration: past the end or on EOL the scan ends (EOL appended); NOP advances by one; any other step appends one option and moves to i + byte i+1 of the re-encoded list |
| OptionScan.ScanFrom | ps_tcp.py:104-129 | the options found so far stay a prefix of the scan's result |
| OptionScan.Scan | ps_tcp.py:104-129 | the option list of the decode constructor: empty for an empty option area, and an End-Of-List option, when read, is the last one |
| OptionScan.StuckStepRepeats | ps_tcp.py:115-129 | a step that does not move the cursor is followed by the same step with the same option appended again: the loop does not end |
| OptionScan.AdvanceFaithful | ps_tcp.py:115-129 | while the options read so far re-encode to the bytes before the cursor, the re-encoded advance equals the new option's encoded length byte, and equals the area's length byte when the option keeps it |
| OptionScan.ScanRoundTrip | ps_tcp.py:104-129 | the scan as written reads `raw_options` of a well-formed chain (canonical options, EOL only last, unknown options without payload) back to the same chain, SACK-permitted read as unknown |
| OptionScan.StepFixedAt | ps_tcp.py:106-129 | the intended step: a step that succeeds appends exactly one option, moves the cursor forward and stays within the area |
| OptionScan.StepFixedAtOther | ps_tcp.py:115-129 | the intended step on a kind other than EOL and NOP, with a length byte of at least 2 that fits the area: it decodes the option from exactly that many bytes and advances by the option's own length byte |
| OptionScan.ScanFixedRoundTrip | ps_tcp.py:104-129 | the intended scan reads back every well-formed chain, unknown options with payloads included |
| OptionScan.AdvanceFromReencodingExample | ps_tcp.py:116-121 | an MSS option whose length byte is 6 makes the scan as written fail with IndexError on [2,6,5,0xB4,0,0,3,3,7,1]; the intended scan reads MSS, window scale and NOP |
| OptionScan.WscaleBuilderExample | ps_tcp.py:358-361 | the built window-scale option followed by a NOP is sent as [2,4,7,1] and read back as one MSS option of 0x0701; the corrected builder round-trips |
| TcpSegment.OffsetByte | ps_tcp.py:170 | byte 12 as packed holds the header length in its upper bits and NS in its lowest bit: dividing by 4 gives hlen back, the remainder is NS |
| TcpSegment.FlagsBits | ps_tcp.py:171-178 | byte 13 as packed: each of the eight flags sits in its own bit, CWR in bit 7 down to FIN in bit 0 |
| TcpSegment.FlagsByte | ps_tcp.py:171-178 | the packed byte 13 decodes back to the same eight flags |
| TcpSegment.DecodeFlags | ps_tcp.py:89-97 | NS is the lowest bit of byte 12, and the eight decoded flags pack back into byte 13 unchanged |
| TcpSegment.RawHeader | ps_tcp.py:160-182 | `raw_header` is 20 bytes with the checksum at bytes 16 and 17 in network order |
| TcpSegment.RawPacket | ps_tcp.py:224-228 | `raw_packet` is the header, then `raw_options`, then the payload, each at its offset |
| TcpSegment.HeaderLenOf | ps_tcp.py:88 | the decoded header length is a multiple of 4 and at most 60 |
| TcpSegment.DecodeSegment | ps_tcp.py:73-101 | fewer than 14 bytes give IndexError and 14 to 19 bytes give StructError; a success had at least 20 bytes and its header length is read from byte 12 |
| TcpSegment.FlagsRoundTrip | ps_tcp.py:89-97 | any nine flags packed into bytes 12 and 13 are read back unchanged |
| TcpSegment.HeaderLenRoundTrip | ps_tcp.py:170 | the packed header length reads back unchanged exactly when it is a multiple of 4 |
| TcpSegment.DecodeSplit | ps_tcp.py:77-81 | with 20 <= hlen <= length, header, option area and payload partition the buffer; a larger hlen shortens the option area and leaves no payload; a smaller one gives no options and a payload starting inside the header |
| TcpSegment.HeaderFieldsRoundTrip | ps_tcp.py:84-100 | every fixed header field is read back unchanged from `raw_header` |
| TcpSegment.CksumFieldSplice | ps_tcp.py:180 | changing the checksum attribute changes bytes 16 and 17 of `raw_packet` and nothing else |
| TcpSegment.SegmentRoundTrip | ps_tcp.py:73-158 | a segment whose byte 12 fits, with hlen = 20 + len(raw_options), a multiple of 4, and whose options are canonical, with EOL only last and unknown options without payload, decodes from its `raw_packet` back to itself (SACK-permitted read as unknown) |
| TcpSegment.SynWithMssExample | ps_tcp.py:160-228 | a SYN from port 51234 to 80 with MSS 1460 serialises to the given 24 bytes and decodes back to itself |
| TcpChecksum.CksumData | ps_tcp.py:207 | the summed data is the pseudo-header, then the segment, then one zero byte when the segment has odd length |
| TcpChecksum.Words | ps_tcp.py:208 | the data read as big-endian 16-bit words, word k from bytes 2k and 2k+1 |
| TcpChecksum.Sum | ps_tcp.py:210 | the sum of n 16-bit words is at most 0xFFFF times n |
| TcpChecksum.ChecksumFromSum | ps_tcp.py:211 | the single fold as written is the complement of the full fold when one fold leaves no carry, and one more than that for a 32-bit sum whose fold leaves a carry |
| TcpChecksum.ComputeCksum | ps_tcp.py:204-211 | `compute_cksum` of a segment that fits an IP datagram is the intended checksum or one more than it |
| TcpChecksum.FoldAll | ps_tcp.py:211 | the intended fold: a 16-bit value congruent to the sum modulo 0xFFFF, non-zero for a non-zero sum |
| TcpChecksum.OnesComplementSum | ps_tcp.py:204-211 | the receiver's check value, at most 0xFFFF |
| TcpChecksum.SumUpdate | ps_tcp.py:209-210 | overwriting one word changes the sum by the difference |
| TcpChecksum.WordsOfSplice | ps_tcp.py:207-209 | behind a 12-byte pseudo-header, the checksum field is word 14 and no other word depends on it |
| TcpChecksum.CksumIgnoresStoredCksum | ps_tcp.py:209 | the computed checksum (as written and corrected) does not depend on the value already in the checksum field |
| TcpChecksum.CksumStable | ps_tcp.py:230-235 | after storing the computed checksum, computing it again gives the stored value, which sits in bytes 16 and 17 |
| TcpChecksum.ZeroChecksum | ps_tcp.py:204-211 | an all-zero pseudo-header and segment give the checksum 0xFFFF |
| TcpChecksum.FoldWithComplement | ps_tcp.py:211 | a sum plus its corrected checksum folds to 0xFFFF |
| TcpChecksum.FixedCksumVerifies | ps_tcp.py:204-235 | a segment carrying the corrected checksum passes the receiver's check: its one's-complement sum is 0xFFFF |
| TcpChecksum.AsWrittenFailsOnSecondCarry | ps_tcp.py:211 | for a 32-bit sum whose halves add past 0xFFFF, the checksum as written differs from the intended one, and the receiver's sum comes to 1 instead of 0xFFFF |
| TcpChecksum.SecondCarryExample | ps_tcp.py:211 | for the word sum 0x1FFFF the checksum as written is 0xFFFF (receiver's sum 1), where the intended one is 0xFFFE (receiver's sum 0xFFFF) |
| TcpPackets.FirstNamed | ps_tcp.py:237-242 | no result exactly when no option has that name; otherwise the option at the first index with that name |
| TcpPackets.TcpPacket.GetOption | ps_tcp.py:237-242 | the loop returns the first option whose name matches, or none |
| TcpPackets.TcpPacket.RawOptions | ps_tcp.py:213-222 | the loop returns the concatenated encodings of the object's options |
| TcpPackets.TcpPacket.Build | ps_tcp.py:131-158 | the built object has checksum 0, header length 20 + len(raw_options), and the given fields, options and payload |
| TcpPackets.TcpPacket.Parsed | ps_tcp.py:77-102 | the fixed header fields, header length, flags and payload read from a buffer of at least 20 bytes, with no options yet |
| TcpPackets.TcpPacket.Decode | ps_tcp.py:73-129 | decoding fails exactly as `DecodeSegment` does, or gives a new object whose attributes are `DecodeSegment`'s segment |
| TcpPackets.TcpPacket.ReadOptions | ps_tcp.py:104-129 | the option loop leaves in the object the list `Scan` reads from the area, or stops with `Scan`'s error |
| TcpPackets.TcpPacket.ReadOtherOption | ps_tcp.py:115-129 | one loop pass on a kind other than EOL and NOP: it fails with the error the scan reports from that position, or appends the option and moves the cursor forward to where the scan continues |
| TcpPackets.TcpPacket.Length | ps_tcp.py:199-202 | `__len__` is the length of `raw_packet`, i.e. hlen plus the payload length when hlen is consistent |
| TcpPackets.TcpPacket.GetRawPacket | ps_tcp.py:230-235 | stores the checksum computed over the pseudo-header and the current `raw_packet`, changes no other attribute, and returns the new `raw_packet`; behind a 12-byte pseudo-header the stored value is the checksum of the returned bytes |

## Left out

- The `tracker` attribute and the `Tracker` class are left out: they only carry logging and correlation identifiers.
- The `ip_pseudo_header` attribute copied from the parent packet is left out: `GetRawPacket` takes the pseudo-header as a parameter instead.
- `__str__` and the options' `__str__` are left out: they only build log text.
- The parent packet is reduced to its payload bytes: the decoder takes `raw` directly.
- The packet pipeline, receive thread and ARP coupling (stack.py, ph.py) are not part of this model.
- TcpPackets.TcpPacket.Build: the constructor's `assert hlen % 4 == 0` is a precondition. No object is made when it fails.
- TcpPackets.TcpPacket.Build: the object keeps a copy of the option list, where Python keeps the caller's list object (by default one empty list shared by every call). No operation of this class changes that list after construction, so no behaviour modelled here depends on the sharing.
- TcpSegment.RawHeader: `struct.pack` rejecting a byte 12 of 256 or more is a precondition (`HeaderFits`), not an error value. The integer fields are typed by their width, so out-of-range values cannot be stored.
- TcpChecksum.ComputeCksum: it requires a pseudo-header of even length and at least 30 bytes of summed data (pseudo-header, segment and pad byte), so that word 14 exists. Python would raise `struct.error` on an odd pseudo-header, and `IndexError` when `cksum_data[14]` is out of range. The properties that rely on word 14 being the checksum field are stated for a 12-byte (IPv4) pseudo-header.
- The field builders' `None` defaults are left out: every builder takes its field. A `None` field would make `struct.pack` raise in `raw_option`.
- OptionScan.ScanFrom: a step that does not advance is reported as `Diverges` instead of looping forever. StuckStepRepeats proves that the loop would repeat that step.
- TcpOptions.ParseMss: an empty option slice (a length byte of 0) builds an option with a `None` field, and the next `self.raw_options` packing then raises. The model reports this as `StructError` at the decode step. ParseWscale and ParseTimestamp do the same.
- TcpChecksum.SecondCarryExample: it is shown at the level of the word sum. No concrete packet whose words add to such a sum is exhibited.

## Findings

| source | as written | input that shows it | evidently intended | confidence | as-written member | corrected member |
|---|---|---|---|---|---|---|
| ps_tcp.py:117 | the scan advances by `self.raw_options[i + 1]`, a byte of the re-encoded option list, not of the received bytes | option area [2,6,5,0xB4,0,0,3,3,7,1]: the MSS option re-encodes in 4 bytes, so the next advance reads past the re-encoding and raises IndexError | advance by `raw_options[i + 1]`, the option's own length byte | high, not executed | OptionScan.AdvanceFromReencodingExample | OptionScan.ScanFixedRoundTrip |
| ps_tcp.py:404 | TcpOptUnk keeps `raw_option[2 : opt_len - 2]`, dropping the payload's last two bytes | [9, 4, 0xAA, 0xBB] decodes to an unknown option with no payload, which re-encodes to [9, 4] | `raw_option[2 : opt_len]` | high, not executed | TcpOptions.UnkLosesPayload | TcpOptions.UnkFixedRoundTrip |
| ps_tcp.py:359-360 | the window-scale (and timestamp, lines 383-384) field builders use MSS's kind 2 and length 4 | a built window scale of 7 followed by a NOP goes out as [2,4,7,1] and is read back as one MSS option of 0x0701 | kind 3 / length 3 for window scale, kind 8 / length 10 for timestamp | high, not executed | OptionScan.WscaleBuilderExample | TcpOptions.FixedBuildersRoundTrip |
| ps_tcp.py:211 | the carries above bit 15 are folded back once | a word sum of 0x1FFFF gives 0xFFFF, and the receiver's one's-complement sum then comes to 1 instead of 0xFFFF | fold until no carry is left | medium, not executed | TcpChecksum.AsWrittenFailsOnSecondCarry | TcpChecksum.FixedCksumVerifies |
