# NAx25 in Dafny

A model of the decoding core of NAx25, a C# library for amateur packet
radio. The library stacks two byte codecs:

- **KISS** is the serial framing between a host and a terminal node
  controller (TNC). A frame is `FEND`, a port/command byte, the
  byte-stuffed payload and a closing `FEND`. `FEND` is 0xC0, `FESC`
  0xDB, `TFEND` 0xDC and `TFESC` 0xDD.
- **AX.25 v2.0** is the link-layer frame the payload carries. It reads,
  in order:
  - the HDLC flags 0x7E;
  - a chain of 7-octet address subfields that ends at the first
    subfield whose extension bit is set;
  - a control byte that makes the frame an I, S or U frame;
  - for I and U frames, a protocol identifier (PID) and the information
    bytes;
  - the two-byte frame-check sequence (FCS), low byte first.

Every operation is a pure function over `seq<byte>` (`byte` is `bv8`).
Each C# `throw` and each out-of-range index or slice becomes a
`Failure` with its own `Error` value. Five loops of the source are
also written as methods, each proved to compute the functional
definition: `Kiss.UnescapeLoop`, `Frames.RemoveFlagsLoop`,
`Crc16.TableEntryLoop`, `Crc16.BuildTable` and `Crc16.Crc16Ccitt`. The
other loops (the KISS escape and unescape of KissFraming.cs and the
address scan of Decoding.cs) are modelled only as recursive functions.

| module | file | models |
|---|---|---|
| `Bytes`, `Results` | common.dfy | bits of a byte as `BitArray` indexes them, `ConvertToByte`, `Option`, `Result` and the error values |
| `KissFraming` | kiss_framing.dfy | `KissFraming.Kiss`, `KissFraming.Unkiss`, `KissCommandCode` |
| `Kiss` | kiss.dfy | `Kiss.Unkiss` and its index-stepping unescape loop |
| `Address` | address.dfy | the `AddressField` constructor and `ToString` |
| `Control` | control.dfy | `ControlFields` as a sum type; `GetFrameType`, `DecodeControlByte` (both revisions), `GetSupervisoryControlFieldType`, `EncodeControlField` |
| `ProtocolId` | pid.dfy | `GetProtocolId` of FieldDecoding.cs and of `InformationFrameFields` |
| `Crc16` | crc.dfy | `Crc16Ccitt`: the table build and the fold |
| `Decoding` | decoding.dfy | `ConsumeAddressField`, `ConsumeByte`, `ConsumeInformationField`, `ConsumeFcsField`, `EncodeFcs` |
| `Frames` | frame.dfy | `Frame.TryParse`, `RemoveFlags`, `GetAx25V2SFrameType`, `DestinationAddress`, `SourceAddresses` |

The library holds two revisions of the same functions:

- `Frame.cs` calls into `Decoding.cs`;
- `FieldDecoding.cs` repeats those functions and adds the encoder, the
  PID and the CRC.

Each function is modelled once. Its doc comment names both copies.

- `ControlFields` is a sum type: `IFields`, `SFields` and `UFields`.
  The flat record of `ControlFields.cs` survives as accessors
  (`ModifierBits`, `ReceiveSequenceNumber`, …). Those return `None` or
  the C# default 0 where that record leaves a member unset.
- `GetFrameType` and `DecodeControlByte` each end in a `throw`. Both
  throws are unreachable, and the model proves it with `assert false`
  in the dead branch.

## Model

| member | source | states |
|---|---|---|
| Bytes.ByteOfBits | NAx25/FieldDecoding.cs:138 | converting an 8-element bit array gives the byte whose bit `i` is element `i` |
| Bytes.BitsOf | NAx25/FieldDecoding.cs:48 | `new BitArray(new[] { b })` lists the eight bits of `b`, least significant first |
| Bytes.ByteOfBitsOf | NAx25/FieldDecoding.cs:138 | reading a byte's bits and converting them back gives the byte |
| Bytes.MsbFirst | NAx25/AddressField.cs:32 | `bool[].ConvertToByte()` is the positional value of the bits, first element most significant, and is below `2^n` for `n` bits |
| Bytes.MsbFirstFromValue | NAx25/KissFraming.cs:82-86 | the accumulating conversion shifts the bits in below the value already read |
| Bytes.BitsValuePrepend | NAx25/AddressField.cs:32 | the first of `n` bits weighs `2^(n-1)` |
| Bytes.ConvertToByteExamples | NAx25.Tests/ExtensionMethodsTests.cs:9-14 | `bool[]` converts most significant bit first, `BitArray` least significant bit first: the 0, 5 and 255 cases of the tests |
| KissFraming.FromValue | NAx25/KissFraming.cs:95 | the cast of a byte to `KissCommandCode` keeps the byte, and named codes are never `Unnamed` |
| KissFraming.FromValueOfValue | NAx25/KissFraming.cs:144-154 | casting a command code's underlying byte back gives the same code |
| KissFraming.Escape | NAx25/KissFraming.cs:36-55 | the stuffed payload holds no FEND; it is longer by one byte per FEND or FESC; a payload without either is unchanged |
| KissFraming.Unescape | NAx25/KissFraming.cs:119-138 | unstuffing never lengthens its input, and input without FESC is unchanged |
| KissFraming.UnescapeEscape | NAx25/KissFraming.cs:119-138 | unstuffing undoes stuffing for every payload |
| KissFraming.StripFends | NAx25/KissFraming.cs:98 | dropping every FEND leaves none, never lengthens, and changes nothing when there was none |
| KissFraming.StripFendsAppend | NAx25/KissFraming.cs:98 | dropping FENDs commutes with concatenation |
| KissFraming.PortOf | NAx25/KissFraming.cs:80-83 | the port is the high nibble of byte 1: at most 15, and byte 1 lies in `[16p, 16p + 16)` |
| KissFraming.EscapedBody | NAx25/KissFraming.cs:98-99 | the still-escaped payload holds no FEND and is what follows the first kept byte once every FEND is dropped |
| KissFraming.CommandOf | NAx25/KissFraming.cs:80-96 | the command is the low nibble of byte 1, except that exactly 0xFF is ExitKissMode |
| KissFraming.SecondByteSplits | NAx25/KissFraming.cs:33 | a port up to 15 and a nibble-sized command are read back from the packed byte |
| KissFraming.Kiss | NAx25/KissFraming.cs:15-59 | fails exactly when the port exceeds 15; otherwise FEND, the packed byte, the stuffed payload `Escape(raw)` (FEND-free) and FEND, with length 3 + payload + one per FEND/FESC; ExitKissMode packs to 0xFF |
| KissFraming.Unkiss | NAx25/KissFraming.cs:61-141 | fails exactly on fewer than 3 bytes, a first byte other than FEND, or an arity mismatch on the still-escaped bytes; otherwise port and command from byte 1, one byte for TxDelay..FullDuplex, none for ExitKissMode; the payload is the unstuffed FEND-free body |
| KissFraming.UnkissKiss | NAx25/KissFraming.cs:15-141 | `Unkiss(Kiss(p, port, c)) == (p, port, c)` when byte 1 is not FEND, ExitKissMode is only on port 15 with no payload, and a one-byte command carries one unescaped byte |
| KissFraming.Port12DataFrameLosesFirstByte | NAx25/KissFraming.cs:98-99 | port 12 with DataFrame packs to FEND, so the first payload byte is skipped in its place |
| KissFraming.ExitKissModeDecodesOnPort15 | NAx25/KissFraming.cs:33 | ExitKissMode from any port decodes as port 15 |
| KissFraming.UnkissDeterminedByBody | NAx25/KissFraming.cs:70-99 | `Unkiss` depends only on the first two bytes and the FEND-free body |
| KissFraming.UnkissIgnoresInsertedFend | NAx25/KissFraming.cs:98 | a FEND inserted anywhere after byte 1 changes nothing, so the closing FEND is optional |
| KissFraming.UnkissFramed | NAx25/KissFraming.cs:101-140 | on a FEND-free body the arity rule decides success, and the payload is the unstuffed body |
| KissFraming.UnkissExampleText | NAx25.Tests/KissFramingTests.cs:13-20 | "TEST" on port 0 decodes |
| KissFraming.UnkissExampleEscaped | NAx25.Tests/KissFramingTests.cs:33-40 | both escape pairs decode to 0xC0 0xDB |
| KissFraming.UnescapeBothSentinels | NAx25/KissFraming.cs:124-133 | DB DC DB DD unstuffs to C0 DB |
| KissFraming.UnkissExamplesArity | NAx25.Tests/KissFramingTests.cs:43-81 | TxDelay with one byte, ExitKissMode on port 15 and SetHardware with a byte are accepted |
| KissFraming.UnkissExamplesArityMismatch | NAx25.Tests/KissFramingTests.cs:62-74 | ExitKissMode with a byte and Persistence with two are refused |
| KissFraming.KissExampleText | NAx25.Tests/KissFramingTests.cs:93-99 | "TEST" on port 0 encodes as in the test |
| KissFraming.KissExampleSentinels | NAx25.Tests/KissFramingTests.cs:111-117 | 0xC0 0xDB encode as two escape pairs |
| KissFraming.KissExampleTxDelay | NAx25.Tests/KissFramingTests.cs:120-126 | TxDelay on port 6 packs to 0x61, and port 16 is refused |
| Kiss.UnescapeAt | NAx25/Kiss.cs:75-91 | one step of the loop, with 0 standing in for the byte after the last, matches the left-to-right unescape |
| Kiss.UnescapeLoop | NAx25/Kiss.cs:73-92 | the index-bumping loop computes the unescaped payload |
| Kiss.Unkiss | NAx25/Kiss.cs:10-95 | the second decoder gives the same result or failure as `KissFraming.Unkiss` on every input |
| Address.CallsignChar | NAx25/AddressField.cs:20-22 | a callsign octet carries the 7-bit character `b >> 1` |
| Address.RawCallsign | NAx25/AddressField.cs:15-23 | the untrimmed callsign is six characters, one per octet 0..5 |
| Address.TrimStart | NAx25/AddressField.cs:25 | removes exactly the leading spaces |
| Address.TrimEnd | NAx25/AddressField.cs:25 | removes exactly the trailing spaces |
| Address.Trim | NAx25/AddressField.cs:25 | the result is a slice with only spaces outside it, and it neither starts nor ends with a space |
| Address.TrimPadded | NAx25/AddressField.cs:25 | a word padded with spaces on the right trims back to the word |
| Address.SsidOf | NAx25/AddressField.cs:32 | the four bits read most significant first are `(b >> 1) & 0x0F` |
| Address.FromBytes | NAx25/AddressField.cs:8-34 | fails exactly when not given 7 octets; the callsign has at most six characters and no space at either end; the SSID is below 16 and is `(octet6 >> 1) & 0x0F`; C/R, the reserved bits and the extension bit are bits 7, 6, 5 and 0 of octet 6 |
| Address.SsidOctetOfDecoded | NAx25/AddressField.cs:27-33 | octet 6 is rebuilt exactly from the decoded flags and SSID |
| Address.DecodedSsidOctet | NAx25/AddressField.cs:27-33 | an octet built from flags and an SSID decodes to them |
| Address.ExtensionBitIgnored | NAx25/AddressField.cs:17-20 | flipping bit 0 of any callsign octet leaves the decoded address unchanged |
| Address.PaddedCallsignDecodes | NAx25/AddressField.cs:15-25 | a callsign of up to six characters, shifted and space-padded, decodes as itself |
| Address.NatToDecimal | NAx25/AddressField.cs:43 | decimal text: digits only, no leading zero, denoting the number |
| Address.ToString | NAx25/AddressField.cs:43 | the bare callsign for SSID 0, otherwise callsign, hyphen and the SSID in decimal with no leading zero |
| Address.Wb4jfiExample | NAx25.Tests/AddressFieldTests.cs:10-30 | WB4JFI with SSID 5 and both reserved bits decodes for all four extension/C-R combinations, and prints as WB4JFI-5 |
| Address.Wb4jfiCallsign | NAx25.Tests/AddressFieldTests.cs:20-24 | the six WB4JFI octets decode to "WB4JFI" |
| Address.Ssid5Text | NAx25/AddressField.cs:43 | WB4JFI with SSID 5 prints as "WB4JFI-5" |
| Control.GetFrameType | NAx25/Frame.cs:121-139 | I frame exactly when bit 0 is clear, S exactly for low bits 01, U exactly for 11; the final throw is unreachable |
| Control.GetSupervisoryControlFieldType | NAx25/Decoding.cs:85-103 | 0001 is RR, 0101 RNR, 1001 REJ, and every other nibble is refused |
| Control.NrOf | NAx25/Decoding.cs:51 | N(R) is bits 7..5 with bit 5 least significant, so below 8 |
| Control.NsOf | NAx25/Decoding.cs:52 | N(S) is bits 3..1 with bit 1 least significant, so below 8 |
| Control.DecodeControlByte | NAx25/Decoding.cs:45-80 | fails exactly for an S nibble 1101; otherwise the frame type is `GetFrameType`'s and P/F is bit 4; N(R) is set in I and S frames, N(S) only in I frames; modifier bits only in U frames, as [b2, b3, b5, b6, b7]; supervisory type only in S frames, and it is `GetSupervisoryControlFieldType` of bits 3 and 2 |
| Control.EncodeControlField | NAx25/FieldDecoding.cs:88-141 | fails exactly when N(S) or N(R) exceeds 7, N(S) checked first; otherwise the I, S and U packings as shifts and masks |
| Control.EncodedBits | NAx25/FieldDecoding.cs:100-138 | the bit array the encoder fills converts to the shift-and-mask byte |
| Control.DecodeEncode | NAx25/FieldDecoding.cs:46-141 | decoding an encoded control field gives the same fields back |
| Control.EncodeDecode | NAx25/FieldDecoding.cs:46-141 | encoding the fields of any byte that decodes gives that byte back |
| Control.EncodeExamples | NAx25/FieldDecoding.cs:88-141 | 0x3E for an I frame with N(R) 1, N(S) 7, P; 0x41 for RR with N(R) 2; 0x2F for SABM; N(S) 8 refused |
| Control.AprsControlByte | NAx25.Tests/Asserts.cs:13-18 | 0x03 is a U frame with five clear modifier bits, P/F clear, both sequence numbers 0 and no supervisory type |
| ProtocolId.GetProtocolId | NAx25/Frame.cs:150-174 | layer 3 exactly when bits 5 and 4 differ; any other success is the table entry of that byte; fails exactly off the table with bits 5 and 4 equal, with the escape error exactly for 0xFF |
| ProtocolId.TableBytesClassify | NAx25/FieldDecoding.cs:160-171 | every table byte is classified as its own protocol, none shadowed by the layer 3 test |
| ProtocolId.ClassifiedByTable | NAx25/FieldDecoding.cs:160-171 | a PID is a table protocol exactly when it is that protocol's byte |
| ProtocolId.ProtocolIdExamples | NAx25/FieldDecoding.cs:151-175 | 0xF0, 0xCF, 0x10, 0x20, 0xFF, 0x00 and 0xC0 classify as the rules say |
| ProtocolId.LengthBitArrayAt | NAx25/FieldDecoding.cs:153-155 | an element of `new BitArray(length)` is clear, and reading past the end fails |
| ProtocolId.GetProtocolIdAsWritten | NAx25/FieldDecoding.cs:151-175 | the code as written fails on PIDs 0..5 and never yields layer 3 |
| ProtocolId.AsWrittenMisclassifies | NAx25/FieldDecoding.cs:153-158 | 0x01 fails instead of being X.25, and 0x10 is unknown instead of layer 3 |
| ProtocolId.AsWrittenAgrees | NAx25/FieldDecoding.cs:151-175 | the as-written and intended readings agree exactly on PIDs above 5 whose bits 5 and 4 are equal |
| Crc16.TableEntryLoop | NAx25/FieldDecoding.cs:315-329 | the inner loop's `temp` ends as eight shift-register steps from `i << 8` |
| Crc16.InnerRound | NAx25/FieldDecoding.cs:317-328 | one round moves `temp ^ a` one register step, and `a` one shift |
| Crc16.BuildTable | NAx25/FieldDecoding.cs:313-330 | entry `i` of the 256-entry table is the register after eight steps from `i << 8` |
| Crc16.HighByte | NAx25/FieldDecoding.cs:334 | the index byte is the high half of the register |
| Crc16.UpdateFeedsHighHalf | NAx25/FieldDecoding.cs:334 | feeding a byte through the table equals xoring it into the high half of the register and feeding a zero byte |
| Crc16.Crc16Ccitt | NAx25/FieldDecoding.cs:297-338 | the CRC is the left fold of the table update over the input from 0xFFFF |
| Crc16.LoopStep | NAx25/FieldDecoding.cs:332-335 | one round of the fold keeps the loop invariant |
| Crc16.CrcOfEmpty | NAx25/FieldDecoding.cs:309-311 | the CRC of no bytes is 0xFFFF |
| Crc16.CrcAppend | NAx25/FieldDecoding.cs:332-335 | the CRC of `a + b` continues the CRC of `a` over `b` |
| Crc16.TableExamples | NAx25/FieldDecoding.cs:313-330 | entries 0, 1 and 2 are 0x0000, 0x1021 and 0x2042 |
| Decoding.ScanFrom | NAx25/Decoding.cs:15-27 | the loop from group `g` stops at the first closing group, gives 0 at a whole-group end, and fails at a partial group |
| Decoding.ConsumeAddressField | NAx25/Decoding.cs:9-32 | the two parts concatenate to the input; the field ends with the first closing group; with none, whole groups give an empty field and a partial group fails |
| Decoding.AddressFieldOfClosedGroup | NAx25/Decoding.cs:16-26 | the field ends at the first closing group, whatever follows |
| Decoding.AddressFieldIsChain | NAx25/Decoding.cs:9-32 | what is split off is an address chain |
| Decoding.ChainSplitsOff | NAx25/Decoding.cs:9-32 | a non-empty chain followed by anything splits off whole |
| Decoding.ConsumeByte | NAx25/Decoding.cs:105-111 | fails exactly on empty input; head and tail concatenate back |
| Decoding.ConsumeInformationField | NAx25/Decoding.cs:113-118 | fails exactly below 2 bytes; the two parts concatenate back, the second of length 2 |
| Decoding.ConsumeFcsField | NAx25/Decoding.cs:120-129 | fails exactly below 2 bytes; the FCS is `b0 + 256 * b1` and the rest is everything after |
| Decoding.LittleEndian | NAx25/Decoding.cs:124 | two bytes read low byte first give `lo + 256 * hi` |
| Decoding.ConsumeFcsBytes | NAx25/Decoding.cs:120-129 | reading back the bytes of an FCS gives the FCS |
| Decoding.FcsBytesInjective | NAx25/Decoding.cs:124 | two FCS values with the same bytes are equal |
| Decoding.EncodeFcs | NAx25/FieldDecoding.cs:143-146 | the encoder ignores its argument: the bytes are those of FCS 0 |
| Decoding.EncodeFcsReadsBack | NAx25/FieldDecoding.cs:143-146 | whatever its argument, `EncodeFcs` reads back as 0, so it round-trips only 0 |
| Frames.DropLeadingFlags | NAx25/Frame.cs:76-85 | the kept part never starts with a flag |
| Frames.DropLeadingFlagsSlice | NAx25/Frame.cs:76-85 | what is dropped is all flags, and what is kept is the rest of the input |
| Frames.RemoveFlags | NAx25/Frame.cs:70-98 | the result is a slice of the input: only flags before it, at most one final flag cut after it; it never starts with a flag |
| Frames.RemoveFlagsLoop | NAx25/FieldDecoding.cs:177-205 | the `inFrame` loop with its early return computes `RemoveFlags` |
| Frames.RemoveFlagsOfBody | NAx25/Frame.cs:86-95 | after the leading flags only a final flag is cut |
| Frames.LeadingFlags | NAx25/Frame.cs:78-85 | any number of leading flags before a non-flag are all dropped |
| Frames.RemoveFlagsOfFlagged | NAx25/Frame.cs:70-98 | a body without flags at its ends comes out whole, with or without a closing flag |
| Frames.GetAx25V2SFrameType | NAx25/Frame.cs:100-119 | fails exactly when the address field is not 14 bytes; PreviousVersion exactly when bit 6 of byte 1 equals bit 7 of byte 0, otherwise Command exactly when bit 6 of byte 1 is set |
| Frames.SFrameTypeIgnoresSsidOctets | NAx25/FieldDecoding.cs:263-274 | the guess reads only octets 0 and 1, never the SSID octets and their C bits |
| Frames.Frame.ControlFields | NAx25/Frame.cs:22 | fails exactly for an S nibble 1101; otherwise the frame type is `GetFrameType` of the control byte, P/F is bit 4, N(R) is bits 7..5 outside U frames, N(S) bits 3..1 in I frames, the S type is `GetSupervisoryControlFieldType` of bits 3 and 2, and the U modifier bits are [b2, b3, b5, b6, b7] |
| Frames.Frame.DestinationAddress | NAx25/Frame.cs:34 | decodes exactly when the address field has at least 7 bytes, and is then `Address.FromBytes` of the first seven, so it carries that decoder's callsign, SSID, C/R, reserved-bit and last-address guarantees |
| Frames.Frame.SourceAddresses | NAx25/Frame.cs:35 | succeeds exactly when at most 7 address bytes or a multiple of 7; then source `g` is the decoded slice `7g + 7 .. 7g + 13`, one per group after the destination |
| Frames.SourcesOf | NAx25/Frame.cs:35 | the batched sources after the first seven bytes decode exactly in the same cases, one per whole group |
| Frames.BatchShortGroup | NAx25/Frame.cs:35 | a length that is not a multiple of 7 batches into some short group |
| Frames.InformationFrameFields.ProtocolId | NAx25/Frame.cs:145 | layer 3 exactly when bits 5 and 4 of the PID byte differ; any other success is that byte's table protocol; fails exactly when bits 5 and 4 are equal and the byte is in no table entry, with the escape error exactly for 0xFF |
| Frames.Take | NAx25/Frame.cs:34 | `Take(7)` is the prefix of length at most 7 |
| Frames.Skip | NAx25/Frame.cs:35 | `Skip(7)` is the suffix after the first 7 |
| Frames.Batch | NAx25/Frame.cs:35 | groups exist exactly when there are bytes to group |
| Frames.BatchOfGroups | NAx25/Frame.cs:35 | `7m` bytes batch into `m` groups, group `g` being bytes `7g .. 7g+6` |
| Frames.Collect | NAx25/Frame.cs:35 | the list succeeds exactly when every element does, keeping them in order; a failure is the failure of some element |
| Frames.DecodeEach | NAx25/Frame.cs:35 | each group is decoded on its own |
| Frames.DecodeAll | NAx25/Frame.cs:35 | the sources decode exactly when every group has 7 bytes, each being its group's address; otherwise the error names a group's wrong length |
| Frames.ParseFields | NAx25/Frame.cs:47-57 | I/U frames need at least a PID and two more bytes and consume PID and information; S frames need 14 address bytes and consume nothing |
| Frames.ReadFcs | NAx25/Frame.cs:59-64 | succeeds exactly on 2 bytes; fewer fail short, more fail with the excess count |
| Frames.ParseAfterControl | NAx25/Frame.cs:45-67 | the frame type is the control byte's, the fields match it, and the tail bytes are exactly what was read |
| Frames.ParseAfterAddress | NAx25/Frame.cs:44-67 | the layout after the address field is exactly what was read |
| Frames.TryParse | NAx25/Frame.cs:37-68 | on success the flag-stripped input is address ++ control ++ (PID ++ info for I/U) ++ FCS; the address is a chain; the frame type matches the control byte; S frames have 14 address bytes and the version guess |
| Frames.TryParseSucceeds | NAx25/Frame.cs:37-68 | parsing succeeds exactly when the chain splits off and a control byte follows, then at least 3 bytes for I/U, or 14 address bytes and exactly 2 bytes for S |
| Frames.ExcessBytesOnlyInSFrames | NAx25/Frame.cs:59-64 | the excess-bytes failure only comes from S frames |
| Frames.ParseFieldsOfTail | NAx25/Frame.cs:47-57 | the frame-type branch reads back the fields of a well-formed frame |
| Frames.ReadFcsBytes | NAx25/Frame.cs:59-64 | the FCS step reads back a frame's FCS |
| Frames.ParseUnflagged | NAx25/Frame.cs:37-68 | any input whose flags strip to a well-formed frame's layout parses as that frame |
| Frames.ParseLayout | NAx25/Frame.cs:37-68 | a well-formed frame's layout, with any leading flags and a closing flag, parses back to it |
| Frames.SourceGroups | NAx25/Frame.cs:35 | the groups after the destination are the chain's remaining 7-byte groups |
| Frames.SourcesOfChain | NAx25/Frame.cs:35 | the sources of a chain always decode, one per remaining group |
| Frames.ChainAddresses | NAx25.Tests/RealFrames_20201222_143351.cs:31-42 | the destination is the first group; there are `|a|/7 - 1` sources, in order, and only the last is `IsLastAddress` |
| Frames.DecodedSourceIsLast | NAx25/Frame.cs:35 | a decoded source is last exactly when its group closes the chain |
| Frames.SourceIsLast | NAx25/Decoding.cs:16-26 | the extension bit of a group is set exactly for the chain's last group |
| Frames.LowBit | NAx25/AddressField.cs:33 | bit 0 of `BitArray` is the low bit of the octet |
| Frames.ParsedAddresses | NAx25/Frame.cs:34-35 | in a parsed frame with an address field, the sources decode, number `|a|/7 - 1`, and only the last is `IsLastAddress` |
| Frames.NonEmptyChain | NAx25/Decoding.cs:16-26 | a non-empty chain has at least one whole group |
| Frames.CanonicalFrameParses | NAx25.Tests/FrameTests.cs:14-63 | the 20-byte frame of figure 3a parses to its I frame: 14 address bytes, control 0x3E, PID 0xF0, no information, FCS 0 |
| Frames.K8mmoAddress | NAx25.Tests/FrameTests.cs:50-51 | the destination octets decode to K8MMO with SSID 0 |
| Frames.Wb4jfiAddress | NAx25.Tests/FrameTests.cs:53-54 | the source octets decode to WB4JFI with SSID 0, the last address |
| Frames.CanonicalControlFields | NAx25.Tests/FrameTests.cs:55-58 | its control fields are an I frame with N(R) 1, N(S) 7 and P set |
| Frames.CanonicalProtocolId | NAx25.Tests/FrameTests.cs:61 | its PID is "no layer 3 protocol" |
| Frames.CanonicalDestination | NAx25.Tests/FrameTests.cs:50-51 | its destination is K8MMO, SSID 0 |
| Frames.CanonicalSources | NAx25.Tests/FrameTests.cs:52-54 | its one source is WB4JFI, SSID 0, the last address |
| Frames.UnknownPidFailsLate | NAx25/Frame.cs:145 | an I frame with an unknown PID parses; only reading `ProtocolId` fails |
| Frames.UnknownSupervisoryFailsLate | NAx25/Frame.cs:22 | an S frame with nibble 1101 parses; only reading `ControlFields` fails |

## Findings

| source | as written | input that shows it | evidently intended | confidence | as-written member | corrected member |
|---|---|---|---|---|---|---|
| NAx25/FieldDecoding.cs:153 | `new BitArray(pidByte)` is the length constructor: `pidByte` cleared bits, not the bits of the PID | PID 0x01 (X.25 PLP): reading bit 5 of a 1-bit array is out of range. PID 0x10: bits 5 and 4 read clear, so the layer 3 test is skipped and the PID is unknown | bit 5 against bit 4 of the PID itself, as the next line tests; the same line is in NAx25/Frame.cs:152 | high; not executed | ProtocolId.GetProtocolIdAsWritten, ProtocolId.AsWrittenMisclassifies | ProtocolId.GetProtocolId |

The rest of the model, including `InformationFrameFields.ProtocolId`,
uses the corrected `GetProtocolId`.

## Left out

- KissListener/Program.cs: serial-port I/O, the read loop and console
  output.
- NAx25/Classifier.cs: an older snapshot of the decoder that does not
  compile; Decoding.cs and AddressField.cs replace it.
- `InformationFrameFields.InfoText` and its `ToString`: ASCII decoding
  of the information bytes is a .NET library call.
- Encoders for addresses, source chains and whole frames: the library has
  none. `Frames.Layout` is a specification function that lays a frame
  out; it is not a library operation.
- FCS validation: `TryParse` never checks the FCS. `Crc16Ccitt` is the
  unreflected table-driven CRC, not the reflected AX.25 FCS, so no check
  value is proved.
- Crc16.Crc16Ccitt: the table entries are proved to be eight
  shift-register steps, and the CRC a fold of the table update. There is
  no proof that the fold equals a bit-at-a-time CRC over the message.
  `Crc16.UpdateFeedsHighHalf` proves the first half of that argument.
  The second half, that the register is linear over xor, is not proved.
- Address.Trim: `String.Trim` removes all Unicode white space; only
  spaces are trimmed here. The callsign characters are `b >> 1`, so they
  are all below 128, and of those .NET would also trim tab, line feed,
  vertical tab, form feed and carriage return (0x09..0x0D).
- Address.FromBytes: states that the callsign has at most six characters
  and no space at either end, but not that it is a slice of the six raw
  characters; that is `Address.Trim`'s contract applied to
  `Address.RawCallsign`.
- Decoding.ConsumeFcsField: `BitConverter.ToUInt16` follows host byte
  order; a little-endian host is assumed.
- Frames.Batch: MoreLinq's `Batch` is modelled by its documented
  behaviour (consecutive groups, the last possibly short), since MoreLinq
  is not part of this model.
- Bytes.ByteOfBits: the `ConvertToByte` extension methods are not part
  of this model. Their behaviour is taken from the extension-method
  tests: `bool[]` reads most significant bit first, `BitArray` least
  significant bit first.
- NAx25/FieldDecoding.cs:162 refers to `Protocol.Iso8208_CcittX25Plp`.
  The `Protocol` enum of NAx25/Frame.cs:197-210 declares no such name;
  its first value is `Iso8202_CcittX25Plp`. Both are the one value
  `Iso8208CcittX25Plp` here.
- The `GetA7Byte` helper of the address tests puts reserved bit 1 in
  bit 5, while the decoder reads it from bit 6. Both bits are set in the
  tests, so the tests cannot tell them apart. The model follows the
  decoder.
- The `SupervisoryFrameFields` class is kept as `Option<SFrameType>`:
  its only member is the S-frame version guess.
- NAx25.Tests/DestinationFieldTests.cs targets a `DestinationField`
  class and a `Frame(bytes)` constructor that no longer exist. It is
  used only as evidence.
