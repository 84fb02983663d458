/** The protocol identifier of I and UI frames (section 2.2.4 of the
    AX.25 v2.0 protocol): `GetProtocolId` in NAx25/FieldDecoding.cs and
    `InformationFrameFields.GetProtocolId` in NAx25/Frame.cs, which are the
    same function.

    Both copies build their bit array with `new BitArray(pidByte)`, the
    length constructor, which makes `pidByte` cleared bits instead of the
    eight bits of the PID. `GetProtocolIdAsWritten` models that;
    `GetProtocolId`, which the rest of the model uses, performs the test the
    next line evidently means, bit 5 against bit 4 of the PID. */
module ProtocolId {
  import opened Bytes
  import opened Results

  /** `Protocol`. The enum in Frame.cs declares the first value as
      `Iso8202_...`, while FieldDecoding.cs refers to it as `Iso8208_...`;
      it is one value here. */
  datatype Protocol =
    | Iso8208CcittX25Plp
    | SegmentationFragment
    | Ax25Layer3Implemented
    | TexnetDatagramProtocol
    | LinkQualityProtocol
    | Appletalk
    | AppletalkArp
    | ArpaInternetProtocol
    | ArpaAddressResolution
    | NetRom
    | NoLayer3Protocol

  /** The PID byte the lookup table gives for each protocol; an AX.25
      layer 3 protocol is any byte of the form yy01yyyy or yy10yyyy. */
  function TableByte(p: Protocol): Option<byte> {
    match p
    case Iso8208CcittX25Plp => Some(0x01)
    case SegmentationFragment => Some(0x08)
    case Ax25Layer3Implemented => None
    case TexnetDatagramProtocol => Some(0xC3)
    case LinkQualityProtocol => Some(0xC4)
    case Appletalk => Some(0xCA)
    case AppletalkArp => Some(0xCB)
    case ArpaInternetProtocol => Some(0xCC)
    case ArpaAddressResolution => Some(0xCD)
    case NetRom => Some(0xCF)
    case NoLayer3Protocol => Some(0xF0)
  }

  /** `GetProtocolId`. A PID whose bits 5 and 4 differ is an AX.25 layer 3
      protocol, before the table is looked at; otherwise the table decides,
      0xFF is the unsupported escape, and every other byte is unknown. */
  function GetProtocolId(pidByte: byte): (r: Result<Protocol>)
    ensures r == Success(Ax25Layer3Implemented) <==> pidByte & 0x30 == 0x10 || pidByte & 0x30 == 0x20
    ensures r.Success? && r.value != Ax25Layer3Implemented ==> TableByte(r.value) == Some(pidByte)
    ensures r.Failure? <==> (pidByte & 0x30 == 0x00 || pidByte & 0x30 == 0x30)
                            && forall p: Protocol :: TableByte(p) != Some(pidByte)
    ensures r == Failure(EscapePidUnsupported) <==> pidByte == 0xFF
  {
    if Bit(pidByte, 5) != Bit(pidByte, 4) then Success(Ax25Layer3Implemented)
    else if pidByte == 0x01 then Success(Iso8208CcittX25Plp)
    else if pidByte == 0x08 then Success(SegmentationFragment)
    else if pidByte == 0xC3 then Success(TexnetDatagramProtocol)
    else if pidByte == 0xC4 then Success(LinkQualityProtocol)
    else if pidByte == 0xCA then Success(Appletalk)
    else if pidByte == 0xCB then Success(AppletalkArp)
    else if pidByte == 0xCC then Success(ArpaInternetProtocol)
    else if pidByte == 0xCD then Success(ArpaAddressResolution)
    else if pidByte == 0xCF then Success(NetRom)
    else if pidByte == 0xF0 then Success(NoLayer3Protocol)
    else if pidByte == 0xFF then Failure(EscapePidUnsupported)
    else Failure(UnknownProtocolId(pidByte))
  }

  /** Every table entry is classified as its own protocol: none of them is
      shadowed by the layer 3 test. */
  lemma TableBytesClassify(p: Protocol)
    requires p != Ax25Layer3Implemented
    ensures GetProtocolId(TableByte(p).value) == Success(p)
  {
  }

  /** A PID is classified as a table protocol only when it is that
      protocol's table byte. */
  lemma ClassifiedByTable(pidByte: byte, p: Protocol)
    requires p != Ax25Layer3Implemented
    ensures GetProtocolId(pidByte) == Success(p) <==> TableByte(p) == Some(pidByte)
  {
  }

  /** Element `i` of `new BitArray(length)`: cleared, or an out-of-range
      failure past the end. */
  function LengthBitArrayAt(length: nat, i: nat): (r: Result<bool>)
    ensures r.Success? <==> i < length
    ensures r.Success? ==> !r.value
    ensures r.Failure? ==> r.error == BitIndexOutOfRange
  {
    if i < length then Success(false) else Failure(BitIndexOutOfRange)
  }

  /** `GetProtocolId` as the code stands: `new BitArray(pidByte)` holds
      `pidByte` cleared bits, so reading bit 5 throws when the PID is 5 or
      less, and otherwise bits 5 and 4 are both clear and the layer 3 test
      never fires. */
  function GetProtocolIdAsWritten(pidByte: byte): (r: Result<Protocol>)
    ensures r == Failure(BitIndexOutOfRange) <==> pidByte <= 5
    ensures r != Success(Ax25Layer3Implemented)
    ensures pidByte > 5 && r.Success? ==> TableByte(r.value) == Some(pidByte)
  {
    var ba5 :- LengthBitArrayAt(pidByte as nat, 5);
    var ba4 := LengthBitArrayAt(pidByte as nat, 4).value;
    if ba5 != ba4 then Success(Ax25Layer3Implemented)
    else if pidByte == 0x01 then Success(Iso8208CcittX25Plp)
    else if pidByte == 0x08 then Success(SegmentationFragment)
    else if pidByte == 0xC3 then Success(TexnetDatagramProtocol)
    else if pidByte == 0xC4 then Success(LinkQualityProtocol)
    else if pidByte == 0xCA then Success(Appletalk)
    else if pidByte == 0xCB then Success(AppletalkArp)
    else if pidByte == 0xCC then Success(ArpaInternetProtocol)
    else if pidByte == 0xCD then Success(ArpaAddressResolution)
    else if pidByte == 0xCF then Success(NetRom)
    else if pidByte == 0xF0 then Success(NoLayer3Protocol)
    else if pidByte == 0xFF then Failure(EscapePidUnsupported)
    else Failure(UnknownProtocolId(pidByte))
  }

  /** Where the two readings differ: the X.25 PID 0x01 throws instead of
      being classified, and the AX.25 layer 3 PIDs 0x10 and 0x20 come out
      unknown. */
  lemma AsWrittenMisclassifies()
    ensures GetProtocolIdAsWritten(0x01) == Failure(BitIndexOutOfRange)
    ensures GetProtocolId(0x01) == Success(Iso8208CcittX25Plp)
    ensures GetProtocolIdAsWritten(0x10) == Failure(UnknownProtocolId(0x10))
    ensures GetProtocolId(0x10) == Success(Ax25Layer3Implemented)
  {
  }

  /** The two readings agree exactly on PIDs above 5 whose bits 5 and 4
      are equal. */
  lemma AsWrittenAgrees(pidByte: byte)
    ensures GetProtocolIdAsWritten(pidByte) == GetProtocolId(pidByte)
            <==> pidByte > 5 && (pidByte & 0x30 == 0x00 || pidByte & 0x30 == 0x30)
  {
  }

  /** Examples: 0xF0 is "no layer 3", 0xCF NET/ROM, 0x10 and 0x20 are
      AX.25 layer 3, 0xFF is the escape and 0x00 and 0xC0 are
      unknown. */
  lemma ProtocolIdExamples()
    ensures GetProtocolId(0xF0) == Success(NoLayer3Protocol)
    ensures GetProtocolId(0xCF) == Success(NetRom)
    ensures GetProtocolId(0x10) == Success(Ax25Layer3Implemented)
    ensures GetProtocolId(0x20) == Success(Ax25Layer3Implemented)
    ensures GetProtocolId(0xFF) == Failure(EscapePidUnsupported)
    ensures GetProtocolId(0x00) == Failure(UnknownProtocolId(0x00))
    ensures GetProtocolId(0xC0) == Failure(UnknownProtocolId(0xC0))
  {
  }
}
