/** The AX.25 v2.0 control field (section 2.3.2.1 of the AX.25 v2.0
    protocol): the frame-type discrimination, the decoders of
    NAx25/Decoding.cs and NAx25/FieldDecoding.cs, and the encoder of
    NAx25/FieldDecoding.cs. The flat `ControlFields` record of
    NAx25/ControlFields.cs, whose members are each meaningful for only some
    frame types, is a sum type here; its flat members are recovered by the
    accessors. */
module Control {
  import opened Bytes
  import opened Results

  /** `FrameType`. The source calls every U frame `UnnumberedInformation`. */
  datatype FrameType = UnnumberedInformation | Information | Supervisory

  /** `SupervisoryControlFieldType`: RR, RNR and REJ. */
  datatype SupervisoryType = ReceiveReady | ReceiveNotReady | Reject

  /** The decoded control field. U frames keep the five modifier bits under
      their names in FieldDecoding.cs (M7, M6, M5, M3, M2). */
  datatype ControlFields =
    | IFields(nr: byte, ns: byte, pollFinal: bool)
    | SFields(nr: byte, supervisoryType: SupervisoryType, pollFinal: bool)
    | UFields(m7: bool, m6: bool, m5: bool, m3: bool, m2: bool, pollFinal: bool)
  {
    function Type(): FrameType {
      match this
      case IFields(_, _, _) => Information
      case SFields(_, _, _) => Supervisory
      case UFields(_, _, _, _, _, _) => UnnumberedInformation
    }

    /** The sequence numbers fit in three bits. */
    predicate Valid() {
      match this
      case IFields(nr, ns, _) => nr < 8 && ns < 8
      case SFields(nr, _, _) => nr < 8
      case UFields(_, _, _, _, _, _) => true
    }

    /** `ModifierBits` of Decoding.cs: M2, M3, M5, M6, M7 in that order, and
        null unless this is a U frame. */
    function ModifierBits(): Option<seq<bool>> {
      if UFields? then Some([m2, m3, m5, m6, m7]) else None
    }

    /** `ReceiveSequenceNumber`, left at the C# default 0 in U frames. */
    function ReceiveSequenceNumber(): byte {
      if UFields? then 0 else nr
    }

    /** `SendSequenceNumber`, left at the C# default 0 outside I frames. */
    function SendSequenceNumber(): byte {
      if IFields? then ns else 0
    }

    /** `SupervisoryControlFieldType`, null outside S frames. */
    function SupervisoryControlFieldType(): Option<SupervisoryType> {
      if SFields? then Some(supervisoryType) else None
    }
  }

  /** `GetFrameType`: bit 0 clear is an I frame, bits 1..0 = 01 an S frame
      and 11 a U frame. The final `throw` of the source cannot be reached. */
  function GetFrameType(control: byte): (t: FrameType)
    ensures t == Information <==> control & 0x01 == 0
    ensures t == Supervisory <==> control & 0x03 == 0x01
    ensures t == UnnumberedInformation <==> control & 0x03 == 0x03
  {
    if Bit(control, 0) && Bit(control, 1) then UnnumberedInformation
    else if Bit(control, 0) && !Bit(control, 1) then Supervisory
    else if !Bit(control, 0) then Information
    else assert false; Information
  }

  /** `GetSupervisoryControlFieldType(b3, b2, b1, b0)`: 0001 is RR, 0101 is
      RNR, 1001 is REJ; anything else is refused. */
  function GetSupervisoryControlFieldType(b3: bool, b2: bool, b1: bool, b0: bool): (r: Result<SupervisoryType>)
    ensures r.Success? <==> !b1 && b0 && !(b3 && b2)
    ensures r == Success(ReceiveNotReady) <==> (!b3 && b2 && !b1 && b0)
    ensures r == Success(Reject) <==> (b3 && !b2 && !b1 && b0)
  {
    if !b3 && !b2 && !b1 && b0 then Success(ReceiveReady)
    else if !b3 && b2 && !b1 && b0 then Success(ReceiveNotReady)
    else if b3 && !b2 && !b1 && b0 then Success(Reject)
    else Failure(UnknownSupervisoryType(
      (if b3 then 0x08 else 0) | (if b2 then 0x04 else 0) | (if b1 then 0x02 else 0) | (if b0 then 0x01 else 0)))
  }

  /** `GetNrBits(controlBits).ConvertToByte()`: bits 7..5, bit 5 the least
      significant. */
  function NrOf(control: byte): (nr: byte)
    ensures nr == control >> 5
    ensures nr < 8
  {
    var bits := [Bit(control, 5), Bit(control, 6), Bit(control, 7), false, false, false, false, false];
    var nr := ByteOfBits(bits);
    assert Bit(nr, 0) == Bit(control >> 5, 0) && Bit(nr, 1) == Bit(control >> 5, 1);
    assert Bit(nr, 2) == Bit(control >> 5, 2) && Bit(nr, 3) == Bit(control >> 5, 3);
    assert Bit(nr, 4) == Bit(control >> 5, 4) && Bit(nr, 5) == Bit(control >> 5, 5);
    assert Bit(nr, 6) == Bit(control >> 5, 6) && Bit(nr, 7) == Bit(control >> 5, 7);
    BitsDetermineByte(nr, control >> 5);
    nr
  }

  /** `GetNsBits(controlBits).ConvertToByte()`: bits 3..1, bit 1 the least
      significant. */
  function NsOf(control: byte): (ns: byte)
    ensures ns == (control >> 1) & 0x07
    ensures ns < 8
  {
    var bits := [Bit(control, 1), Bit(control, 2), Bit(control, 3), false, false, false, false, false];
    var ns := ByteOfBits(bits);
    var want := (control >> 1) & 0x07;
    assert Bit(ns, 0) == Bit(want, 0) && Bit(ns, 1) == Bit(want, 1);
    assert Bit(ns, 2) == Bit(want, 2) && Bit(ns, 3) == Bit(want, 3);
    assert Bit(ns, 4) == Bit(want, 4) && Bit(ns, 5) == Bit(want, 5);
    assert Bit(ns, 6) == Bit(want, 6) && Bit(ns, 7) == Bit(want, 7);
    BitsDetermineByte(ns, want);
    ns
  }

  /** `DecodeControlByte`, both revisions. Only an S frame whose low nibble
      is 1101 is refused; P/F is bit 4 in every frame type; N(R) is bits
      7..5 in I and S frames and N(S) bits 3..1 in I frames; the flat view
      leaves the members of other frame types unset. */
  function DecodeControlByte(controlByte: byte): (r: Result<ControlFields>)
    ensures r.Failure? <==> controlByte & 0x0F == 0x0D
    ensures r.Success? ==>
      var c := r.value;
      && c.Valid()
      && c.Type() == GetFrameType(controlByte)
      && c.pollFinal == (controlByte & 0x10 != 0)
      && (c.Type() != UnnumberedInformation ==> c.ReceiveSequenceNumber() == controlByte >> 5)
      && (c.Type() == Information ==> c.SendSequenceNumber() == (controlByte >> 1) & 0x07)
      && (c.ModifierBits().Some? <==> c.Type() == UnnumberedInformation)
      && (c.SupervisoryControlFieldType().Some? <==> c.Type() == Supervisory)
      && (c.Type() == Supervisory ==>
            Success(c.SupervisoryControlFieldType().value)
              == GetSupervisoryControlFieldType(Bit(controlByte, 3), Bit(controlByte, 2), false, true))
      && (c.Type() == UnnumberedInformation ==>
            c.ModifierBits().value == [Bit(controlByte, 2), Bit(controlByte, 3), Bit(controlByte, 5),
                                       Bit(controlByte, 6), Bit(controlByte, 7)]
            && c.ReceiveSequenceNumber() == 0 && c.SendSequenceNumber() == 0)
  {
    var controlBits := BitsOf(controlByte);
    if controlBits[0] && controlBits[1] then
      Success(UFields(controlBits[7], controlBits[6], controlBits[5], controlBits[3], controlBits[2], controlBits[4]))
    else if controlBits[0] && !controlBits[1] then
      var t :- GetSupervisoryControlFieldType(controlBits[3], controlBits[2], controlBits[1], controlBits[0]);
      Success(SFields(NrOf(controlByte), t, controlBits[4]))
    else if !controlBits[0] then
      Success(IFields(NrOf(controlByte), NsOf(controlByte), controlBits[4]))
    else
      assert false; Failure(MissingByte)
  }

  /** `EncodeControlField`. Either sequence number above 7 is refused,
      N(S) first, whatever the frame type; otherwise the fields of the
      given frame type are packed and the others ignored. */
  function EncodeControlField(frameType: FrameType, pfBit: bool, sendSequenceNumber: byte, receiveSequenceNumber: byte,
                              m7: bool, m6: bool, m5: bool, m3: bool, m2: bool,
                              supervisoryType: SupervisoryType): (r: Result<byte>)
    ensures r.Failure? <==> sendSequenceNumber > 7 || receiveSequenceNumber > 7
    ensures r.Failure? ==> r.error == (if sendSequenceNumber > 7 then SendSequenceNumberOutOfRange
                                      else ReceiveSequenceNumberOutOfRange)
    ensures r.Success? && frameType == Information ==>
      r.value == (receiveSequenceNumber << 5) | (if pfBit then 0x10 else 0) | (sendSequenceNumber << 1)
    ensures r.Success? && frameType == Supervisory ==>
      r.value == (receiveSequenceNumber << 5) | (if pfBit then 0x10 else 0)
                 | (if supervisoryType == Reject then 0x08 else 0)
                 | (if supervisoryType == ReceiveNotReady then 0x04 else 0) | 0x01
    ensures r.Success? && frameType == UnnumberedInformation ==>
      r.value == (if m7 then 0x80 else 0) | (if m6 then 0x40 else 0) | (if m5 then 0x20 else 0)
                 | (if pfBit then 0x10 else 0) | (if m3 then 0x08 else 0) | (if m2 then 0x04 else 0) | 0x03
  {
    if sendSequenceNumber > 0x07 then Failure(SendSequenceNumberOutOfRange)
    else if receiveSequenceNumber > 0x07 then Failure(ReceiveSequenceNumberOutOfRange)
    else
      var nrBits := BitsOf(receiveSequenceNumber);
      var nsBits := BitsOf(sendSequenceNumber);
      var ba :=
        match frameType
        case Information =>
          [false, nsBits[0], nsBits[1], nsBits[2], pfBit, nrBits[0], nrBits[1], nrBits[2]]
        case Supervisory =>
          [true, false, supervisoryType == ReceiveNotReady, supervisoryType == Reject,
           pfBit, nrBits[0], nrBits[1], nrBits[2]]
        case UnnumberedInformation =>
          [true, true, m2, m3, pfBit, m5, m6, m7];
      var b := ByteOfBits(ba);
      EncodedBits(b, ba, frameType, pfBit, sendSequenceNumber, receiveSequenceNumber, m7, m6, m5, m3, m2, supervisoryType);
      Success(b)
  }

  /** The byte the bit array converts to, written with shifts and masks. */
  lemma EncodedBits(b: byte, ba: seq<bool>, frameType: FrameType, pfBit: bool, ns: byte, nr: byte,
                    m7: bool, m6: bool, m5: bool, m3: bool, m2: bool, supervisoryType: SupervisoryType)
    requires ns <= 7 && nr <= 7 && |ba| == 8
    requires forall i :: 0 <= i < 8 ==> Bit(b, i) == ba[i]
    requires frameType == Information ==>
      ba == [false, Bit(ns, 0), Bit(ns, 1), Bit(ns, 2), pfBit, Bit(nr, 0), Bit(nr, 1), Bit(nr, 2)]
    requires frameType == Supervisory ==>
      ba == [true, false, supervisoryType == ReceiveNotReady, supervisoryType == Reject,
             pfBit, Bit(nr, 0), Bit(nr, 1), Bit(nr, 2)]
    requires frameType == UnnumberedInformation ==> ba == [true, true, m2, m3, pfBit, m5, m6, m7]
    ensures frameType == Information ==>
      b == (nr << 5) | (if pfBit then 0x10 else 0) | (ns << 1)
    ensures frameType == Supervisory ==>
      b == (nr << 5) | (if pfBit then 0x10 else 0)
           | (if supervisoryType == Reject then 0x08 else 0)
           | (if supervisoryType == ReceiveNotReady then 0x04 else 0) | 0x01
    ensures frameType == UnnumberedInformation ==>
      b == (if m7 then 0x80 else 0) | (if m6 then 0x40 else 0) | (if m5 then 0x20 else 0)
           | (if pfBit then 0x10 else 0) | (if m3 then 0x08 else 0) | (if m2 then 0x04 else 0) | 0x03
  {
    assert Bit(b, 0) == ba[0] && Bit(b, 1) == ba[1] && Bit(b, 2) == ba[2] && Bit(b, 3) == ba[3];
    assert Bit(b, 4) == ba[4] && Bit(b, 5) == ba[5] && Bit(b, 6) == ba[6] && Bit(b, 7) == ba[7];
    match frameType
    case Information => EncodedBitsI(b, pfBit, ns, nr);
    case Supervisory => EncodedBitsS(b, pfBit, nr, supervisoryType);
    case UnnumberedInformation => EncodedBitsU(b, pfBit, m7, m6, m5, m3, m2);
  }

  lemma EncodedBitsI(b: byte, pfBit: bool, ns: byte, nr: byte)
    requires ns <= 7 && nr <= 7
    requires !Bit(b, 0) && Bit(b, 1) == Bit(ns, 0) && Bit(b, 2) == Bit(ns, 1) && Bit(b, 3) == Bit(ns, 2)
    requires Bit(b, 4) == pfBit && Bit(b, 5) == Bit(nr, 0) && Bit(b, 6) == Bit(nr, 1) && Bit(b, 7) == Bit(nr, 2)
    ensures b == (nr << 5) | (if pfBit then 0x10 else 0) | (ns << 1)
  {
    var want := (nr << 5) | (if pfBit then 0x10 else 0) | (ns << 1);
    assert Bit(b, 0) == Bit(want, 0) && Bit(b, 1) == Bit(want, 1);
    assert Bit(b, 2) == Bit(want, 2) && Bit(b, 3) == Bit(want, 3);
    assert Bit(b, 4) == Bit(want, 4) && Bit(b, 5) == Bit(want, 5);
    assert Bit(b, 6) == Bit(want, 6) && Bit(b, 7) == Bit(want, 7);
    BitsDetermineByte(b, want);
  }

  lemma EncodedBitsS(b: byte, pfBit: bool, nr: byte, supervisoryType: SupervisoryType)
    requires nr <= 7
    requires Bit(b, 0) && !Bit(b, 1) && Bit(b, 2) == (supervisoryType == ReceiveNotReady)
    requires Bit(b, 3) == (supervisoryType == Reject)
    requires Bit(b, 4) == pfBit && Bit(b, 5) == Bit(nr, 0) && Bit(b, 6) == Bit(nr, 1) && Bit(b, 7) == Bit(nr, 2)
    ensures b == (nr << 5) | (if pfBit then 0x10 else 0)
                 | (if supervisoryType == Reject then 0x08 else 0)
                 | (if supervisoryType == ReceiveNotReady then 0x04 else 0) | 0x01
  {
    var want := (nr << 5) | (if pfBit then 0x10 else 0)
                | (if supervisoryType == Reject then 0x08 else 0)
                | (if supervisoryType == ReceiveNotReady then 0x04 else 0) | 0x01;
    assert Bit(b, 0) == Bit(want, 0) && Bit(b, 1) == Bit(want, 1);
    assert Bit(b, 2) == Bit(want, 2) && Bit(b, 3) == Bit(want, 3);
    assert Bit(b, 4) == Bit(want, 4) && Bit(b, 5) == Bit(want, 5);
    assert Bit(b, 6) == Bit(want, 6) && Bit(b, 7) == Bit(want, 7);
    BitsDetermineByte(b, want);
  }

  lemma EncodedBitsU(b: byte, pfBit: bool, m7: bool, m6: bool, m5: bool, m3: bool, m2: bool)
    requires Bit(b, 0) && Bit(b, 1) && Bit(b, 2) == m2 && Bit(b, 3) == m3
    requires Bit(b, 4) == pfBit && Bit(b, 5) == m5 && Bit(b, 6) == m6 && Bit(b, 7) == m7
    ensures b == (if m7 then 0x80 else 0) | (if m6 then 0x40 else 0) | (if m5 then 0x20 else 0)
                 | (if pfBit then 0x10 else 0) | (if m3 then 0x08 else 0) | (if m2 then 0x04 else 0) | 0x03
  {
    var want := (if m7 then 0x80 else 0) | (if m6 then 0x40 else 0) | (if m5 then 0x20 else 0)
                | (if pfBit then 0x10 else 0) | (if m3 then 0x08 else 0) | (if m2 then 0x04 else 0) | 0x03;
    assert Bit(b, 0) == Bit(want, 0) && Bit(b, 1) == Bit(want, 1);
    assert Bit(b, 2) == Bit(want, 2) && Bit(b, 3) == Bit(want, 3);
    assert Bit(b, 4) == Bit(want, 4) && Bit(b, 5) == Bit(want, 5);
    assert Bit(b, 6) == Bit(want, 6) && Bit(b, 7) == Bit(want, 7);
    BitsDetermineByte(b, want);
  }

  /** The encoder's arguments taken from a decoded control field; the
      members a frame type does not have are passed as the C# defaults. */
  function Encode(c: ControlFields): Result<byte> {
    match c
    case IFields(nr, ns, pf) =>
      EncodeControlField(Information, pf, ns, nr, false, false, false, false, false, ReceiveReady)
    case SFields(nr, t, pf) =>
      EncodeControlField(Supervisory, pf, 0, nr, false, false, false, false, false, t)
    case UFields(m7, m6, m5, m3, m2, pf) =>
      EncodeControlField(UnnumberedInformation, pf, 0, 0, m7, m6, m5, m3, m2, ReceiveReady)
  }

  /** Decoding an encoded control field gives the same frame type and
      fields back. */
  lemma DecodeEncode(c: ControlFields)
    requires c.Valid()
    ensures Encode(c).Success?
    ensures DecodeControlByte(Encode(c).value) == Success(c)
  {
    match c
    case IFields(nr, ns, pf) => DecodeEncodeI(nr, ns, pf);
    case SFields(nr, t, pf) => DecodeEncodeS(nr, t, pf);
    case UFields(m7, m6, m5, m3, m2, pf) => DecodeEncodeU(m7, m6, m5, m3, m2, pf);
  }

  lemma DecodeEncodeI(nr: byte, ns: byte, pf: bool)
    requires nr < 8 && ns < 8
    ensures Encode(IFields(nr, ns, pf)).Success?
    ensures DecodeControlByte(Encode(IFields(nr, ns, pf)).value) == Success(IFields(nr, ns, pf))
  {
    var b := Encode(IFields(nr, ns, pf)).value;
    assert b >> 5 == nr && (b >> 1) & 0x07 == ns && b & 0x01 == 0;
  }

  lemma DecodeEncodeS(nr: byte, t: SupervisoryType, pf: bool)
    requires nr < 8
    ensures Encode(SFields(nr, t, pf)).Success?
    ensures DecodeControlByte(Encode(SFields(nr, t, pf)).value) == Success(SFields(nr, t, pf))
  {
    var b := Encode(SFields(nr, t, pf)).value;
    assert b >> 5 == nr && b & 0x03 == 0x01;
    assert b & 0x0F == (if t == Reject then 0x09 else if t == ReceiveNotReady then 0x05 else 0x01);
    assert Bit(b, 4) == pf;
  }

  lemma DecodeEncodeU(m7: bool, m6: bool, m5: bool, m3: bool, m2: bool, pf: bool)
    ensures Encode(UFields(m7, m6, m5, m3, m2, pf)).Success?
    ensures DecodeControlByte(Encode(UFields(m7, m6, m5, m3, m2, pf)).value)
              == Success(UFields(m7, m6, m5, m3, m2, pf))
  {
    var b := Encode(UFields(m7, m6, m5, m3, m2, pf)).value;
    UByteBits(b, m7, m6, m5, m3, m2, pf);
  }

  /** The bits of a packed U control byte. */
  lemma UByteBits(b: byte, m7: bool, m6: bool, m5: bool, m3: bool, m2: bool, pf: bool)
    requires b == (if m7 then 0x80 else 0) | (if m6 then 0x40 else 0) | (if m5 then 0x20 else 0)
                  | (if pf then 0x10 else 0) | (if m3 then 0x08 else 0) | (if m2 then 0x04 else 0) | 0x03
    ensures b & 0x03 == 0x03 && b & 0x0F != 0x0D
    ensures Bit(b, 0) && Bit(b, 1) && Bit(b, 2) == m2 && Bit(b, 3) == m3
    ensures Bit(b, 4) == pf && Bit(b, 5) == m5 && Bit(b, 6) == m6 && Bit(b, 7) == m7
  {
  }

  /** Encoding the fields of any byte that decodes gives that byte back. */
  lemma EncodeDecode(controlByte: byte)
    requires DecodeControlByte(controlByte).Success?
    ensures Encode(DecodeControlByte(controlByte).value) == Success(controlByte)
  {
    if controlByte & 0x01 == 0 {
      EncodeDecodeI(controlByte);
    } else if controlByte & 0x03 == 0x01 {
      EncodeDecodeS(controlByte);
    } else {
      EncodeDecodeU(controlByte);
    }
  }

  lemma EncodeDecodeI(controlByte: byte)
    requires controlByte & 0x01 == 0
    ensures DecodeControlByte(controlByte).Success?
    ensures Encode(DecodeControlByte(controlByte).value) == Success(controlByte)
  {
    var c := DecodeControlByte(controlByte).value;
    assert c.nr == controlByte >> 5 && c.ns == (controlByte >> 1) & 0x07;
    IByteOfFields(controlByte);
  }

  lemma EncodeDecodeS(controlByte: byte)
    requires controlByte & 0x03 == 0x01 && controlByte & 0x0F != 0x0D
    ensures DecodeControlByte(controlByte).Success?
    ensures Encode(DecodeControlByte(controlByte).value) == Success(controlByte)
  {
    var c := DecodeControlByte(controlByte).value;
    assert c.nr == controlByte >> 5;
    SByteOfFields(controlByte, c.supervisoryType);
  }

  lemma EncodeDecodeU(controlByte: byte)
    requires controlByte & 0x03 == 0x03
    ensures DecodeControlByte(controlByte).Success?
    ensures Encode(DecodeControlByte(controlByte).value) == Success(controlByte)
  {
    var c := DecodeControlByte(controlByte).value;
    assert c.ModifierBits().value == [c.m2, c.m3, c.m5, c.m6, c.m7];
    UByteOfFields(controlByte);
  }

  /** An I control byte is its N(R), P and N(S) put back together. */
  lemma IByteOfFields(b: byte)
    requires b & 0x01 == 0
    ensures b == ((b >> 5) << 5) | (if b & 0x10 != 0 then 0x10 else 0) | (((b >> 1) & 0x07) << 1)
  {
  }

  /** An S control byte is its N(R), P/F and low nibble put back together. */
  lemma SByteOfFields(b: byte, t: SupervisoryType)
    requires b & 0x03 == 0x01
    requires t == Reject <==> b & 0x0F == 0x09
    requires t == ReceiveNotReady <==> b & 0x0F == 0x05
    requires t == ReceiveReady <==> b & 0x0F == 0x01
    ensures b == ((b >> 5) << 5) | (if b & 0x10 != 0 then 0x10 else 0)
                 | (if t == Reject then 0x08 else 0)
                 | (if t == ReceiveNotReady then 0x04 else 0) | 0x01
  {
  }

  /** A U control byte is its modifier bits and P/F put back together. */
  lemma UByteOfFields(b: byte)
    requires b & 0x03 == 0x03
    ensures b == (if Bit(b, 7) then 0x80 else 0) | (if Bit(b, 6) then 0x40 else 0) | (if Bit(b, 5) then 0x20 else 0)
                 | (if b & 0x10 != 0 then 0x10 else 0) | (if Bit(b, 3) then 0x08 else 0) | (if Bit(b, 2) then 0x04 else 0)
                 | 0x03
  {
  }

  /** The three encoder examples: an I frame with N(R) 1, N(S) 7 and P set
      is 0x3E; an RR S frame with N(R) 2 and F clear is 0x41; a U frame
      with only M2..M3 and M5 set is 0x2F (SABM without P). */
  lemma EncodeExamples()
    ensures EncodeControlField(Information, true, 7, 1, false, false, false, false, false, ReceiveReady) == Success(0x3E)
    ensures EncodeControlField(Supervisory, false, 0, 2, false, false, false, false, false, ReceiveReady) == Success(0x41)
    ensures EncodeControlField(UnnumberedInformation, false, 0, 0, false, false, true, true, true, ReceiveReady) == Success(0x2F)
    ensures EncodeControlField(Information, false, 8, 9, false, false, false, false, false, ReceiveReady)
              == Failure(SendSequenceNumberOutOfRange)
  {
  }

  /** The control byte of an APRS UI frame, 0x03: a U frame with every
      modifier bit clear, P/F clear, both sequence numbers 0 and no
      supervisory type. */
  lemma AprsControlByte()
    ensures DecodeControlByte(0x03).Success?
    ensures var c := DecodeControlByte(0x03).value;
      && c.Type() == UnnumberedInformation
      && c.ModifierBits() == Some([false, false, false, false, false])
      && !c.pollFinal
      && c.ReceiveSequenceNumber() == 0 && c.SendSequenceNumber() == 0
      && c.SupervisoryControlFieldType() == None
  {
  }
}
