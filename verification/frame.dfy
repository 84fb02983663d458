/** An AX.25 frame as `Frame.TryParse` reads it (NAx25/Frame.cs): flags
    removed, the address chain, the control byte, then either a PID and an
    information field (I and U frames) or the S-frame version guess (S
    frames), and the two FCS bytes. `RemoveFlags` and `GetAx25V2SFrameType`
    are repeated word for word in NAx25/FieldDecoding.cs and are modelled
    once. */
module Frames {
  import opened Bytes
  import opened Results
  import opened Control
  import opened Decoding
  import Address
  import Pid = ProtocolId

  /** The HDLC flag that opens and closes a frame on the wire. */
  const FLAG: byte := 0x7E

  /* ---------------------------------------------------------------- */
  /* Flags                                                             */
  /* ---------------------------------------------------------------- */

  /** The input with its leading flags dropped. */
  function DropLeadingFlags(data: seq<byte>): (r: seq<byte>)
    ensures |r| <= |data|
    ensures r == [] || r[0] != FLAG
  {
    if data != [] && data[0] == FLAG then DropLeadingFlags(data[1..]) else data
  }

  /** What `DropLeadingFlags` drops is flags, and what it keeps is the rest
      of the input. */
  lemma {:induction false} DropLeadingFlagsSlice(data: seq<byte>)
    ensures var r := DropLeadingFlags(data);
      r == data[|data| - |r|..] && forall k :: 0 <= k < |data| - |r| ==> data[k] == FLAG
  {
    if data != [] && data[0] == FLAG {
      DropLeadingFlagsSlice(data[1..]);
      var r := DropLeadingFlags(data);
      assert data[1..][|data| - 1 - |r|..] == data[|data| - |r|..];
      forall k | 1 <= k < |data| - |r| ensures data[k] == FLAG {
        assert data[1..][k - 1] == data[k];
      }
    }
  }

  /** `r` is the slice `data[i..j]` of the input, everything before `i` is a
      flag, and at most one final flag is cut at the end. */
  predicate FlagTrim(data: seq<byte>, i: nat, j: nat, r: seq<byte>) {
    && i <= j <= |data| && r == data[i..j]
    && (forall k :: 0 <= k < i ==> data[k] == FLAG)
    && (j == |data| || (j == |data| - 1 && data[j] == FLAG))
  }

  /** `RemoveFlags`: every leading flag is skipped; from the first other
      byte on, everything is copied except a flag that is the very last
      byte of the input. The result is a slice of the input. */
  function RemoveFlags(data: seq<byte>): (r: seq<byte>)
    ensures exists i, j :: FlagTrim(data, i, j, r)
    ensures r == [] || r[0] != FLAG
    ensures |r| <= |data|
  {
    var body := DropLeadingFlags(data);
    var i := |data| - |body|;
    FlagTrimOf(data, body, i);
    if body != [] && body[|body| - 1] == FLAG then
      assert FlagTrim(data, i, |data| - 1, body[..|body| - 1]);
      body[..|body| - 1]
    else
      assert FlagTrim(data, i, |data|, body);
      body
  }

  /** The two results of `RemoveFlags` are the trims of `data`. */
  lemma FlagTrimOf(data: seq<byte>, body: seq<byte>, i: nat)
    requires body == DropLeadingFlags(data) && i == |data| - |body|
    ensures body != [] && body[|body| - 1] == FLAG ==> FlagTrim(data, i, |data| - 1, body[..|body| - 1])
    ensures !(body != [] && body[|body| - 1] == FLAG) ==> FlagTrim(data, i, |data|, body)
  {
    DropLeadingFlagsSlice(data);
    assert body == data[i..|data|];
    if body != [] && body[|body| - 1] == FLAG {
      assert data[|data| - 1] == FLAG;
    }
  }

  /** The `for` loop of `RemoveFlags`, with its `inFrame` switch and its
      early return at a final flag. */
  method RemoveFlagsLoop(data: seq<byte>) returns (frameResult: seq<byte>)
    ensures frameResult == RemoveFlags(data)
  {
    var body := DropLeadingFlags(data);
    var start := |data| - |body|;
    DropLeadingFlagsSlice(data);
    assert body == data[start..|data|];
    var inFrame := false;
    frameResult := [];
    var i := 0;
    while i < |data|
      invariant 0 <= i <= |data|
      invariant inFrame <==> i > start
      invariant !inFrame ==> frameResult == [] && i <= start
      invariant inFrame ==> frameResult == data[start..i]
      invariant i == |data| && i - 1 > start ==> data[|data| - 1] != FLAG
    {
      if !inFrame {
        if data[i] != FLAG {
          assert i == start;
          inFrame := true;
          frameResult := frameResult + [data[i]];
        }
      } else {
        if data[i] == FLAG && i == |data| - 1 {
          assert body[..|body| - 1] == data[start..i];
          RemoveFlagsOfBody(data);
          return frameResult;
        }
        assert data[start..i + 1] == data[start..i] + [data[i]];
        frameResult := frameResult + [data[i]];
      }
      i := i + 1;
    }
    assert inFrame ==> frameResult == body;
    RemoveFlagsOfBody(data);
  }

  /** Flags around a body that neither starts nor ends with a flag are all
      removed, however many lead. */
  lemma RemoveFlagsOfFlagged(n: nat, body: seq<byte>)
    requires body != [] && body[0] != FLAG && body[|body| - 1] != FLAG
    ensures RemoveFlags(Flags(n) + body + [FLAG]) == body
    ensures RemoveFlags(Flags(n) + body) == body
  {
    RemoveFlagsOfClosed(n, body);
    RemoveFlagsOfOpen(n, body);
  }

  lemma RemoveFlagsOfClosed(n: nat, body: seq<byte>)
    requires body != [] && body[0] != FLAG
    ensures RemoveFlags(Flags(n) + body + [FLAG]) == body
  {
    var closed := body + [FLAG];
    assert Flags(n) + body + [FLAG] == Flags(n) + closed;
    LeadingFlags(n, closed);
    RemoveFlagsAfterDrop(Flags(n) + closed, closed);
    assert closed[..|closed| - 1] == body;
  }

  lemma RemoveFlagsOfOpen(n: nat, body: seq<byte>)
    requires body != [] && body[0] != FLAG && body[|body| - 1] != FLAG
    ensures RemoveFlags(Flags(n) + body) == body
  {
    LeadingFlags(n, body);
    RemoveFlagsAfterDrop(Flags(n) + body, body);
  }

  /** `RemoveFlagsOfBody` for a known result of `DropLeadingFlags`. */
  lemma RemoveFlagsAfterDrop(data: seq<byte>, body: seq<byte>)
    requires DropLeadingFlags(data) == body
    ensures RemoveFlags(data) == if body != [] && body[|body| - 1] == FLAG then body[..|body| - 1] else body
  {
    RemoveFlagsOfBody(data);
  }

  /** `RemoveFlags` after the leading flags are gone: only a final flag is
      cut. */
  lemma RemoveFlagsOfBody(data: seq<byte>)
    ensures var body := DropLeadingFlags(data);
      RemoveFlags(data) == if body != [] && body[|body| - 1] == FLAG then body[..|body| - 1] else body
  {
  }

  /** `n` flags. */
  function Flags(n: nat): (r: seq<byte>)
    ensures |r| == n
  {
    if n == 0 then [] else [FLAG] + Flags(n - 1)
  }

  lemma {:induction false} LeadingFlags(n: nat, s: seq<byte>)
    requires s != [] && s[0] != FLAG
    ensures DropLeadingFlags(Flags(n) + s) == s
  {
    if n > 0 {
      var t := Flags(n - 1) + s;
      assert Flags(n) + s == [FLAG] + t;
      assert ([FLAG] + t)[1..] == t;
      LeadingFlags(n - 1, s);
    } else {
      assert Flags(n) + s == s;
    }
  }

  /* ---------------------------------------------------------------- */
  /* S-frame version                                                   */
  /* ---------------------------------------------------------------- */

  /** `SFrameType`. */
  datatype SFrameType = PreviousVersion | Command | Response

  /** Bit `i` of `new BitArray(bytes)`: bit `i % 8` of byte `i / 8`. */
  predicate BitArrayBit(bytes: seq<byte>, i: nat)
    requires i < 8 * |bytes|
  {
    Bit(bytes[i / 8], i % 8)
  }

  /** `GetAx25V2SFrameType`: only a 14-byte address field (one destination,
      one source) is accepted. Bits 14 and 7 of its bit array are bit 6 of
      byte 1 and bit 7 of byte 0, both callsign octets: equal bits mean the
      previous protocol version, otherwise bit 14 set means a command. */
  function GetAx25V2SFrameType(addressBytes: seq<byte>): (r: Result<SFrameType>)
    ensures r.Failure? <==> |addressBytes| != 14
    ensures r.Failure? ==> r.error == UnsupportedAddressCount(|addressBytes|)
    ensures r.Success? ==>
      (r.value == PreviousVersion <==> Bit(addressBytes[1], 6) == Bit(addressBytes[0], 7))
      && (r.value == Command <==> Bit(addressBytes[1], 6) && !Bit(addressBytes[0], 7))
      && (r.value == Response <==> !Bit(addressBytes[1], 6) && Bit(addressBytes[0], 7))
  {
    if |addressBytes| != 14 then Failure(UnsupportedAddressCount(|addressBytes|))
    else if BitArrayBit(addressBytes, 14) == BitArrayBit(addressBytes, 7) then Success(PreviousVersion)
    else if BitArrayBit(addressBytes, 14) then Success(Command)
    else Success(Response)
  }

  /** The version guess does not look at the SSID octets at all: changing
      octets 2..13 of the address field, C/R bits included, leaves it as it
      was. */
  lemma SFrameTypeIgnoresSsidOctets(a: seq<byte>, b: seq<byte>)
    requires |a| == 14 && |b| == 14 && a[0] == b[0] && a[1] == b[1]
    ensures GetAx25V2SFrameType(a) == GetAx25V2SFrameType(b)
  {
  }

  /* ---------------------------------------------------------------- */
  /* The frame                                                         */
  /* ---------------------------------------------------------------- */

  /** `InformationFrameFields`: the PID byte and the information bytes. */
  datatype InformationFrameFields = InformationFrameFields(protocolIdByte: byte, infoBytes: seq<byte>)
  {
    /** `ProtocolId`: classified only when read. A PID whose bits 5 and 4
        differ is AX.25 layer 3; any other protocol is the one whose table
        byte the PID is. */
    function ProtocolId(): (r: Result<Pid.Protocol>)
      ensures r == Success(Pid.Ax25Layer3Implemented) <==>
                protocolIdByte & 0x30 == 0x10 || protocolIdByte & 0x30 == 0x20
      ensures r.Success? && r.value != Pid.Ax25Layer3Implemented ==>
                Pid.TableByte(r.value) == Some(protocolIdByte)
      ensures r.Failure? <==> (protocolIdByte & 0x30 == 0x00 || protocolIdByte & 0x30 == 0x30)
                              && forall p: Pid.Protocol :: Pid.TableByte(p) != Some(protocolIdByte)
      ensures r == Failure(EscapePidUnsupported) <==> protocolIdByte == 0xFF
    {
      Pid.GetProtocolId(protocolIdByte)
    }
  }

  /** `Frame`. `informationFrameFields` is present for I and U frames and
      `supervisoryFrameFields` for S frames, as `TryParse` fills them in. */
  datatype Frame = Frame(
    addressFieldBytes: seq<byte>,
    controlByte: byte,
    frameType: FrameType,
    informationFrameFields: Option<InformationFrameFields>,
    supervisoryFrameFields: Option<SFrameType>,
    fcsField: fcs)
  {
    /** `ControlFields`: the control byte is decoded only when read, so a
        reserved S-frame nibble fails here and not in `TryParse`. */
    function ControlFields(): (r: Result<Control.ControlFields>)
      ensures r.Failure? <==> controlByte & 0x0F == 0x0D
      ensures r.Success? ==>
        var c := r.value;
        && c.Valid()
        && c.Type() == GetFrameType(controlByte)
        && c.pollFinal == (controlByte & 0x10 != 0)
        && (c.Type() != UnnumberedInformation ==> c.ReceiveSequenceNumber() == controlByte >> 5)
        && (c.Type() == Information ==> c.SendSequenceNumber() == (controlByte >> 1) & 0x07)
        && (c.ModifierBits().Some? <==> c.Type() == UnnumberedInformation)
        && (c.SupervisoryControlFieldType().Some? <==> c.Type() == Supervisory)
        && (c.Type() == Supervisory ==>
              Success(c.SupervisoryControlFieldType().value)
                == GetSupervisoryControlFieldType(Bit(controlByte, 3), Bit(controlByte, 2), false, true))
        && (c.Type() == UnnumberedInformation ==>
              c.ModifierBits().value == [Bit(controlByte, 2), Bit(controlByte, 3), Bit(controlByte, 5),
                                         Bit(controlByte, 6), Bit(controlByte, 7)]
              && c.ReceiveSequenceNumber() == 0 && c.SendSequenceNumber() == 0)
    {
      DecodeControlByte(controlByte)
    }

    /** `DestinationAddress`: the first seven address bytes, decoded as an
        address subfield; fewer than seven fail. */
    function DestinationAddress(): (r: Result<Address.AddressField>)
      ensures r.Success? <==> |addressFieldBytes| >= 7
      ensures |addressFieldBytes| >= 7 ==> r == Address.FromBytes(addressFieldBytes[..7])
      ensures r.Success? ==>
        && r.value.ssid == (addressFieldBytes[6] >> 1) & 0x0F
        && r.value.isLastAddress == ((addressFieldBytes[6] & 0x01) != 0)
    {
      assert |addressFieldBytes| >= 7 ==> Take(addressFieldBytes, 7) == addressFieldBytes[..7];
      Address.FromBytes(Take(addressFieldBytes, 7))
    }

    /** `SourceAddresses`: the address bytes after the first seven, in
        groups of seven, each one decoded. It fails exactly when the bytes
        after the destination end in a partial group. */
    function SourceAddresses(): (r: Result<seq<Address.AddressField>>)
      ensures r.Success? <==> |addressFieldBytes| <= 7 || |addressFieldBytes| % 7 == 0
      ensures r.Success? ==> SourcesDecode(addressFieldBytes, r.value)
    {
      SourcesOf(addressFieldBytes);
      DecodeAll(Batch(Skip(addressFieldBytes, 7), 7))
    }
  }

  /** `Take(n)`: at most the first `n` elements. */
  function Take(s: seq<byte>, n: nat): (r: seq<byte>)
    ensures |r| == if |s| < n then |s| else n
    ensures r == s[..|r|]
  {
    if |s| < n then s else s[..n]
  }

  /** `Skip(n)`: everything after the first `n` elements. */
  function Skip(s: seq<byte>, n: nat): (r: seq<byte>)
    ensures |r| == if |s| < n then 0 else |s| - n
    ensures r == s[|s| - |r|..]
  {
    if |s| < n then [] else s[n..]
  }

  /** MoreLinq's `Batch(n)`: consecutive groups of `n`, the last one
      possibly shorter. */
  function Batch(s: seq<byte>, n: nat): (r: seq<seq<byte>>)
    requires n > 0
    ensures s == [] <==> r == []
    decreases |s|
  {
    if s == [] then []
    else if |s| <= n then [s]
    else [s[..n]] + Batch(s[n..], n)
  }

  /** Whole groups of seven come out of `Batch` one by one, in order. */
  lemma {:induction false} BatchOfGroups(s: seq<byte>, m: nat)
    requires |s| == 7 * m
    ensures |Batch(s, 7)| == m
    ensures forall g :: 0 <= g < m ==> Batch(s, 7)[g] == s[7 * g..7 * g + 7]
  {
    if m > 1 {
      var rest := s[7..];
      BatchOfGroups(rest, m - 1);
      var r := Batch(s, 7);
      assert r == [s[..7]] + Batch(rest, 7);
      forall g | 1 <= g < m ensures r[g] == s[7 * g..7 * g + 7] {
        assert r[g] == Batch(rest, 7)[g - 1] == rest[7 * (g - 1)..7 * (g - 1) + 7];
      }
    } else if m == 1 {
      assert Batch(s, 7) == [s];
    }
  }

  /** A length that is not a multiple of seven leaves a short last group. */
  lemma {:induction false} BatchShortGroup(s: seq<byte>)
    requires |s| % 7 != 0
    ensures exists g :: 0 <= g < |Batch(s, 7)| && |Batch(s, 7)[g]| != 7
  {
    if |s| <= 7 {
      assert Batch(s, 7)[0] == s;
    } else {
      BatchShortGroup(s[7..]);
      var g :| 0 <= g < |Batch(s[7..], 7)| && |Batch(s[7..], 7)[g]| != 7;
      assert Batch(s, 7)[g + 1] == Batch(s[7..], 7)[g];
    }
  }

  /** The sources read from any address bytes: they decode exactly when
      the bytes after the first seven are whole groups, one source per
      group. */
  lemma SourcesOf(a: seq<byte>)
    ensures DecodeAll(Batch(Skip(a, 7), 7)).Success? <==> |a| <= 7 || |a| % 7 == 0
    ensures DecodeAll(Batch(Skip(a, 7), 7)).Success? ==>
      SourcesDecode(a, DecodeAll(Batch(Skip(a, 7), 7)).value)
  {
    WholeTail(|a|);
    if |Skip(a, 7)| % 7 == 0 {
      WholeSourceGroups(a);
    } else {
      PartialSourceGroup(a);
    }
  }

  /** `sources` holds one decoded source per whole group after the first
      seven bytes of `a`, in order. */
  predicate SourcesDecode(a: seq<byte>, sources: seq<Address.AddressField>) {
    && |sources| == |Skip(a, 7)| / 7
    && forall g :: 0 <= g < |sources| ==>
         7 * g + 14 <= |a| && Address.FromBytes(a[7 * g + 7..7 * g + 14]) == Success(sources[g])
  }

  lemma WholeTail(n: nat)
    ensures (if n < 7 then 0 else n - 7) % 7 == 0 <==> n <= 7 || n % 7 == 0
  {
  }

  /** A partial group after the destination makes the sources fail. */
  lemma PartialSourceGroup(a: seq<byte>)
    requires |Skip(a, 7)| % 7 != 0
    ensures DecodeAll(Batch(Skip(a, 7), 7)).Failure?
  {
    BatchShortGroup(Skip(a, 7));
  }

  /** Whole groups after the destination are the slices `7g + 7 ..
      7g + 14`, and each of them decodes. */
  lemma WholeSourceGroups(a: seq<byte>)
    requires |Skip(a, 7)| % 7 == 0
    ensures DecodeAll(Batch(Skip(a, 7), 7)).Success?
    ensures SourcesDecode(a, DecodeAll(Batch(Skip(a, 7), 7)).value)
  {
    var tail := Skip(a, 7);
    var groups := Batch(tail, 7);
    TailGroups(tail);
    WholeGroups(tail, groups);
    var r := DecodeAll(groups);
    GroupsDecode(a, tail, groups, r.value);
  }

  /** `groups` are the consecutive seven-byte slices of `tail`. */
  predicate SlicesOfSeven(tail: seq<byte>, groups: seq<seq<byte>>) {
    && |groups| == |tail| / 7
    && forall g :: 0 <= g < |groups| ==> 7 * g + 7 <= |tail| && groups[g] == tail[7 * g..7 * g + 7]
  }

  lemma TailGroups(tail: seq<byte>)
    requires |tail| % 7 == 0
    ensures SlicesOfSeven(tail, Batch(tail, 7))
  {
    BatchOfGroups(tail, |tail| / 7);
  }

  lemma WholeGroups(tail: seq<byte>, groups: seq<seq<byte>>)
    requires SlicesOfSeven(tail, groups)
    ensures forall g :: 0 <= g < |groups| ==> |groups[g]| == 7
  {
  }

  /** Groups that are the slices of `a` after its first seven bytes, each
      decoding to the matching source, give `SourcesDecode`. */
  lemma GroupsDecode(a: seq<byte>, tail: seq<byte>, groups: seq<seq<byte>>, sources: seq<Address.AddressField>)
    requires tail == Skip(a, 7) && SlicesOfSeven(tail, groups) && |sources| == |groups|
    requires forall g :: 0 <= g < |groups| ==> Address.FromBytes(groups[g]) == Success(sources[g])
    ensures SourcesDecode(a, sources)
  {
    forall g | 0 <= g < |groups|
      ensures 7 * g + 14 <= |a| && groups[g] == a[7 * g + 7..7 * g + 14]
    {
      GroupOfTail(a, tail, g);
    }
  }

  lemma GroupOfTail(a: seq<byte>, tail: seq<byte>, g: nat)
    requires |a| >= 7 && tail == a[7..] && 7 * g + 7 <= |tail|
    ensures 7 * g + 14 <= |a| && tail[7 * g..7 * g + 7] == a[7 * g + 7..7 * g + 14]
  {
  }

  /** `ToList()` over a lazily mapped sequence: the elements are produced
      in order and the first exception ends the list. */
  function Collect<T>(rs: seq<Result<T>>): (r: Result<seq<T>>)
    ensures r.Success? <==> forall k :: 0 <= k < |rs| ==> rs[k].Success?
    ensures r.Success? ==> |r.value| == |rs|
    ensures r.Success? ==> forall k :: 0 <= k < |rs| ==> r.value[k] == rs[k].value
    ensures r.Failure? ==> exists k :: 0 <= k < |rs| && rs[k].Failure? && r.error == rs[k].error
  {
    if rs == [] then Success([])
    else
      var first :- rs[0];
      var rest :- Collect(rs[1..]);
      assert forall k :: 1 <= k < |rs| ==> rs[k] == rs[1..][k - 1];
      Success([first] + rest)
  }

  /** The groups decoded one by one, failures included. */
  function DecodeEach(groups: seq<seq<byte>>): (rs: seq<Result<Address.AddressField>>)
    ensures |rs| == |groups|
    ensures forall k :: 0 <= k < |groups| ==> rs[k] == Address.FromBytes(groups[k])
  {
    seq(|groups|, k requires 0 <= k < |groups| => Address.FromBytes(groups[k]))
  }

  /** `Select(new AddressField(...)).ToList()`: a group that is not seven
      bytes long makes the whole list fail; otherwise every group is
      decoded, in order. */
  function DecodeAll(groups: seq<seq<byte>>): (r: Result<seq<Address.AddressField>>)
    ensures r.Success? <==> forall g :: 0 <= g < |groups| ==> |groups[g]| == 7
    ensures r.Success? ==> |r.value| == |groups|
    ensures r.Success? ==> forall g :: 0 <= g < |groups| ==> Address.FromBytes(groups[g]) == Success(r.value[g])
    ensures r.Failure? ==> exists g :: 0 <= g < |groups| && r.error == AddressLengthInvalid(|groups[g]|)
  {
    Collect(DecodeEach(groups))
  }

  /* ---------------------------------------------------------------- */
  /* Parsing                                                           */
  /* ---------------------------------------------------------------- */

  /** The bytes after the control byte: the PID and information bytes when
      present, then the two FCS bytes low byte first. */
  function Tail(f: Frame): seq<byte> {
    (if f.informationFrameFields.Some?
     then [f.informationFrameFields.value.protocolIdByte] + f.informationFrameFields.value.infoBytes
     else [])
    + FcsBytes(f.fcsField)
  }

  /** The bytes a frame is read from, in order. */
  function Layout(f: Frame): seq<byte> {
    f.addressFieldBytes + [f.controlByte] + Tail(f)
  }

  /** The fields between the control byte and the FCS, as the branch of
      `TryParse` on the frame type reads them: an I or U frame has a PID and
      an information field, an S frame the version guess on its address
      field. */
  datatype Fields = Fields(information: Option<InformationFrameFields>, supervisory: Option<SFrameType>)

  /** The bytes the fields of `fs` take up. */
  function FieldBytes(fs: Fields): seq<byte> {
    if fs.information.Some?
    then [fs.information.value.protocolIdByte] + fs.information.value.infoBytes
    else []
  }

  /** The branch of `TryParse` on the frame type: the fields, and what is
      left for the FCS. */
  function ParseFields(address: seq<byte>, frameType: FrameType, rest: seq<byte>): (r: Result<(Fields, seq<byte>)>)
    ensures frameType != Supervisory ==> (r.Success? <==> |rest| >= 3)
    ensures frameType == Supervisory ==> (r.Success? <==> |address| == 14)
    ensures r.Success? ==> FieldBytes(r.value.0) + r.value.1 == rest
    ensures r.Success? && frameType != Supervisory ==>
      r.value.0.information.Some? && r.value.0.supervisory.None? && |r.value.1| == 2
    ensures r.Success? && frameType == Supervisory ==>
      r.value.0 == Fields(None, Some(GetAx25V2SFrameType(address).value))
  {
    if frameType == Information || frameType == UnnumberedInformation then
      var pid :- ConsumeByte(rest);
      var info :- ConsumeInformationField(pid.1);
      assert rest == [pid.0] + info.0 + info.1;
      Success((Fields(Some(InformationFrameFields(pid.0, info.0)), None), info.1))
    else
      assert frameType.Supervisory?;
      var sFrameType :- GetAx25V2SFrameType(address);
      assert FieldBytes(Fields(None, Some(sFrameType))) + rest == rest;
      Success((Fields(None, Some(sFrameType)), rest))
  }

  /** The shared tail of `TryParse`: the FCS, and a failure when any byte
      is left after it. */
  function ReadFcs(rest: seq<byte>): (r: Result<fcs>)
    ensures r.Success? <==> |rest| == 2
    ensures r.Success? ==> FcsBytes(r.value) == rest
    ensures |rest| < 2 ==> r == Failure(FcsFieldTooShort)
    ensures |rest| > 2 ==> r == Failure(ExcessBytesAfterFcs(|rest| - 2))
  {
    var fcs :- ConsumeFcsField(rest);
    if |fcs.1| > 0 then Failure(ExcessBytesAfterFcs(|fcs.1|))
    else
      assert FcsBytes(fcs.0) + fcs.1 == FcsBytes(fcs.0);
      Success(fcs.0)
  }

  /** The steps of `TryParse` after the control byte: the fields the frame
      type calls for, then the FCS. */
  function ParseAfterControl(address: seq<byte>, control: byte, rest: seq<byte>): (r: Result<Frame>)
    ensures r.Success? ==>
      && r.value.addressFieldBytes == address && r.value.controlByte == control
      && Tail(r.value) == rest
    ensures r.Success? ==> r.value.frameType == GetFrameType(control)
    ensures r.Success? ==>
      && (r.value.informationFrameFields.Some? <==> r.value.frameType != Supervisory)
      && (r.value.supervisoryFrameFields.Some? <==> r.value.frameType == Supervisory)
    ensures r.Success? && r.value.frameType == Supervisory ==>
      && |address| == 14
      && r.value.supervisoryFrameFields == Some(GetAx25V2SFrameType(address).value)
  {
    var frameType := GetFrameType(control);
    var fields :- ParseFields(address, frameType, rest);
    var fcsField :- ReadFcs(fields.1);
    var f := Frame(address, control, frameType, fields.0.information, fields.0.supervisory, fcsField);
    assert Tail(f) == FieldBytes(fields.0) + fields.1;
    Success(f)
  }

  /** `TryParse`. Each step takes its field off the front of what is left;
      the exceptions of the steps become failures, and so does a byte left
      over after the FCS. Neither the control fields nor the PID are
      decoded here. */
  function TryParse(data: seq<byte>): (r: Result<Frame>)
    ensures r.Success? ==> RemoveFlags(data) == Layout(r.value)
    ensures r.Success? ==> IsAddressChain(r.value.addressFieldBytes)
    ensures r.Success? ==> r.value.frameType == GetFrameType(r.value.controlByte)
    ensures r.Success? ==>
      && (r.value.informationFrameFields.Some? <==> r.value.frameType != Supervisory)
      && (r.value.supervisoryFrameFields.Some? <==> r.value.frameType == Supervisory)
    ensures r.Success? && r.value.frameType == Supervisory ==>
      && |r.value.addressFieldBytes| == 14
      && r.value.supervisoryFrameFields == Some(GetAx25V2SFrameType(r.value.addressFieldBytes).value)
  {
    var unflagged := RemoveFlags(data);
    var address :- ConsumeAddressField(unflagged);
    AddressFieldIsChain(unflagged);
    ParseAfterAddress(address.0, address.1)
  }

  /** The steps of `TryParse` after the address field: the control byte
      and what follows it. */
  function ParseAfterAddress(address: seq<byte>, rest: seq<byte>): (r: Result<Frame>)
    ensures r.Success? ==> r.value.addressFieldBytes == address && Layout(r.value) == address + rest
    ensures r.Success? ==> r.value.frameType == GetFrameType(r.value.controlByte)
    ensures r.Success? ==>
      && (r.value.informationFrameFields.Some? <==> r.value.frameType != Supervisory)
      && (r.value.supervisoryFrameFields.Some? <==> r.value.frameType == Supervisory)
    ensures r.Success? && r.value.frameType == Supervisory ==>
      && |address| == 14
      && r.value.supervisoryFrameFields == Some(GetAx25V2SFrameType(address).value)
  {
    var control :- ConsumeByte(rest);
    var f :- ParseAfterControl(address, control.0, control.1);
    LayoutSplits(f);
    Success(f)
  }

  /** The layout is the address field, then the control byte and the
      tail. */
  lemma LayoutSplits(f: Frame)
    ensures Layout(f) == f.addressFieldBytes + ([f.controlByte] + Tail(f))
  {
  }

  /** When `TryParse` succeeds: the address chain must split off, and after
      the control byte there must be at least a PID and two FCS bytes in an
      I or U frame, and exactly the two FCS bytes in an S frame, whose
      address field must be 14 bytes. */
  lemma TryParseSucceeds(data: seq<byte>)
    ensures var a := ConsumeAddressField(RemoveFlags(data));
      TryParse(data).Success? <==>
        a.Success? && |a.value.1| >= 1
        && (if GetFrameType(a.value.1[0]) == Supervisory then |a.value.0| == 14 && |a.value.1| == 3
            else |a.value.1| >= 4)
  {
    var a := ConsumeAddressField(RemoveFlags(data));
    if a.Success? && |a.value.1| >= 1 {
      assert ConsumeByte(a.value.1) == Success((a.value.1[0], a.value.1[1..]));
    }
  }

  /** The excess-bytes failure only ever comes from an S frame. */
  lemma ExcessBytesOnlyInSFrames(data: seq<byte>)
    requires TryParse(data).Failure? && TryParse(data).error.ExcessBytesAfterFcs?
    ensures var a := ConsumeAddressField(RemoveFlags(data));
      a.Success? && |a.value.1| >= 1 && GetFrameType(a.value.1[0]) == Supervisory
  {
    var a := ConsumeAddressField(RemoveFlags(data));
    assert a.Success?;
    assert ConsumeByte(a.value.1).Success?;
  }

  /** A frame `TryParse` can give: its address field is a non-empty chain
      that does not start with a flag; the frame type is the control byte's;
      an S frame carries the version guess of its address field and I and
      U frames their PID and information bytes. */
  predicate WellFormed(f: Frame) {
    && IsAddressChain(f.addressFieldBytes) && f.addressFieldBytes != []
    && f.addressFieldBytes[0] != FLAG
    && f.frameType == GetFrameType(f.controlByte)
    && (if f.frameType == Supervisory then
          && f.informationFrameFields.None?
          && |f.addressFieldBytes| == 14
          && f.supervisoryFrameFields == Some(GetAx25V2SFrameType(f.addressFieldBytes).value)
        else
          f.informationFrameFields.Some? && f.supervisoryFrameFields.None?)
  }

  /** The branch on the frame type reads back the fields of a frame. */
  lemma ParseFieldsOfTail(f: Frame)
    requires WellFormed(f)
    ensures ParseFields(f.addressFieldBytes, f.frameType, Tail(f))
      == Success((Fields(f.informationFrameFields, f.supervisoryFrameFields), FcsBytes(f.fcsField)))
  {
    var fb := FcsBytes(f.fcsField);
    if f.frameType == Supervisory {
      assert Tail(f) == fb;
    } else {
      var info := f.informationFrameFields.value;
      var rest := info.infoBytes + fb;
      assert Tail(f) == [info.protocolIdByte] + rest;
      assert ConsumeByte(Tail(f)) == Success((info.protocolIdByte, rest));
      assert rest[..|rest| - 2] == info.infoBytes && rest[|rest| - 2..] == fb;
      assert ConsumeInformationField(rest) == Success((info.infoBytes, fb));
    }
  }

  /** The shared tail reads back the FCS of a frame. */
  lemma ReadFcsBytes(f: fcs)
    ensures ReadFcs(FcsBytes(f)) == Success(f)
  {
    ConsumeFcsBytes(f, []);
    assert FcsBytes(f) + [] == FcsBytes(f);
  }

  /** Whatever input loses its flags to a well-formed frame's layout parses
      as that frame. */
  lemma ParseUnflagged(f: Frame, data: seq<byte>)
    requires WellFormed(f) && RemoveFlags(data) == Layout(f)
    ensures TryParse(data) == Success(f)
  {
    var a := f.addressFieldBytes;
    var rest := [f.controlByte] + Tail(f);
    assert Layout(f) == a + rest;
    ChainSplitsOff(a, rest);
    ParseAfterAddressOf(f);
  }

  /** After its address field, a well-formed frame's layout parses back to
      the frame. */
  lemma ParseAfterAddressOf(f: Frame)
    requires WellFormed(f)
    ensures ParseAfterAddress(f.addressFieldBytes, [f.controlByte] + Tail(f)) == Success(f)
  {
    var rest := [f.controlByte] + Tail(f);
    assert ConsumeByte(rest) == Success((f.controlByte, Tail(f)));
    ParseFieldsOfTail(f);
    ReadFcsBytes(f.fcsField);
    assert ParseAfterControl(f.addressFieldBytes, f.controlByte, Tail(f)) == Success(f);
  }

  /** Parsing a well-formed frame's layout, with any number of flags in
      front and one closing flag, gives the frame back. */
  lemma ParseLayout(f: Frame, n: nat)
    requires WellFormed(f)
    ensures TryParse(Flags(n) + Layout(f) + [FLAG]) == Success(f)
  {
    var s := Layout(f);
    var closed := s + [FLAG];
    assert Flags(n) + s + [FLAG] == Flags(n) + closed;
    assert s[0] == f.addressFieldBytes[0];
    LeadingFlags(n, closed);
    RemoveFlagsOfBody(Flags(n) + closed);
    assert closed[..|closed| - 1] == s;
    ParseUnflagged(f, Flags(n) + closed);
  }

  /* ---------------------------------------------------------------- */
  /* Addresses of a parsed frame                                       */
  /* ---------------------------------------------------------------- */

  /** The groups after the destination are the source groups of the
      chain, seven bytes each. */
  lemma SourceGroups(a: seq<byte>)
    requires IsAddressChain(a) && |a| >= 7
    ensures var groups := Batch(Skip(a, 7), 7);
      && |groups| == |a| / 7 - 1
      && forall g :: 0 <= g < |groups| ==> groups[g] == a[7 * g + 7..7 * g + 14]
  {
    var tail := a[7..];
    assert Skip(a, 7) == tail;
    BatchOfGroups(tail, |a| / 7 - 1);
    forall g | 0 <= g < |a| / 7 - 1
      ensures tail[7 * g..7 * g + 7] == a[7 * g + 7..7 * g + 14]
    {
    }
  }

  /** The sources of a chain are its groups after the first, decoded. */
  lemma SourcesOfChain(a: seq<byte>)
    requires IsAddressChain(a) && |a| >= 7
    ensures var r := DecodeAll(Batch(Skip(a, 7), 7));
      && r.Success? && |r.value| == |a| / 7 - 1
      && forall g :: 0 <= g < |a| / 7 - 1 ==> Address.FromBytes(a[7 * g + 7..7 * g + 14]) == Success(r.value[g])
  {
    var groups := Batch(Skip(a, 7), 7);
    SourceGroups(a);
    assert forall g :: 0 <= g < |groups| ==> |groups[g]| == 7;
  }

  /** The addresses of a chain: the destination is the first group, the
      sources are the other groups in order, and of the sources only the
      last has `IsLastAddress`. */
  lemma ChainAddresses(f: Frame)
    requires IsAddressChain(f.addressFieldBytes) && |f.addressFieldBytes| >= 7
    ensures var a := f.addressFieldBytes;
      && f.DestinationAddress() == Address.FromBytes(a[..7])
      && f.SourceAddresses().Success?
      && |f.SourceAddresses().value| == |a| / 7 - 1
      && (forall g :: 0 <= g < |a| / 7 - 1 ==>
            Address.FromBytes(a[7 * g + 7..7 * g + 14]) == Success(f.SourceAddresses().value[g]))
      && (forall g :: 0 <= g < |a| / 7 - 1 ==>
            (f.SourceAddresses().value[g].isLastAddress <==> g == |a| / 7 - 2))
  {
    var a := f.addressFieldBytes;
    var m := |a| / 7 - 1;
    assert Take(a, 7) == a[..7];
    SourcesOfChain(a);
    var sources := f.SourceAddresses().value;
    forall g | 0 <= g < m
      ensures sources[g].isLastAddress <==> g == m - 1
    {
      DecodedSourceIsLast(a, g, sources[g]);
    }
  }

  lemma DecodedSourceIsLast(a: seq<byte>, g: nat, source: Address.AddressField)
    requires IsAddressChain(a) && 7 * g + 14 <= |a|
    requires Address.FromBytes(a[7 * g + 7..7 * g + 14]) == Success(source)
    ensures source.isLastAddress <==> g == |a| / 7 - 2
  {
    assert a[7 * g + 7..7 * g + 14][6] == a[7 * g + 13];
    SourceIsLast(a, g, source.isLastAddress);
  }

  /** Source `g` has `IsLastAddress`, the low bit of its last octet,
      exactly when its group closes the chain. */
  lemma SourceIsLast(a: seq<byte>, g: nat, isLast: bool)
    requires IsAddressChain(a) && 7 * g + 14 <= |a|
    requires isLast == ((a[7 * g + 13] & 0x01) != 0)
    ensures isLast <==> g == |a| / 7 - 2
  {
    LowBit(a[7 * (g + 1) + 6]);
    if g < |a| / 7 - 2 {
      assert !GroupEnds(a, g + 1);
    }
  }

  lemma LowBit(b: byte)
    ensures Bit(b, 0) <==> (b & 0x01) != 0
  {
  }

  /** The address view of a parsed frame. */
  lemma ParsedAddresses(data: seq<byte>)
    requires TryParse(data).Success?
    requires TryParse(data).value.addressFieldBytes != []
    ensures var f := TryParse(data).value;
      var a := f.addressFieldBytes;
      && f.SourceAddresses().Success?
      && |f.SourceAddresses().value| == |a| / 7 - 1
      && (forall g :: 0 <= g < |a| / 7 - 1 ==>
            (f.SourceAddresses().value[g].isLastAddress <==> g == |a| / 7 - 2))
  {
    var f := TryParse(data).value;
    NonEmptyChain(f.addressFieldBytes);
    ChainAddresses(f);
  }

  /** A non-empty chain holds at least one whole group. */
  lemma NonEmptyChain(a: seq<byte>)
    requires IsAddressChain(a) && a != []
    ensures |a| >= 7
  {
  }

  /* ---------------------------------------------------------------- */
  /* The canonical frame                                               */
  /* ---------------------------------------------------------------- */

  /** Figure 3a of the AX.25 v2.0 protocol: an I frame from WB4JFI to K8MMO
      with no layer 3 protocol, P set, N(R) 1, N(S) 7 and FCS 0, between
      two flags. */
  const CANONICAL: seq<byte> := [
    0x7E,
    0x96, 0x70, 0x9A, 0x9A, 0x9E, 0x40, 0xE0,
    0xAE, 0x84, 0x68, 0x94, 0x8C, 0x92, 0x61,
    0x3E, 0xF0, 0x00, 0x00,
    0x7E]

  const K8MMO: seq<byte> := [0x96, 0x70, 0x9A, 0x9A, 0x9E, 0x40, 0xE0]
  const WB4JFI: seq<byte> := [0xAE, 0x84, 0x68, 0x94, 0x8C, 0x92, 0x61]

  /** The frame the canonical bytes hold. */
  function CanonicalFrame(): Frame {
    Frame(K8MMO + WB4JFI, 0x3E, Information, Some(InformationFrameFields(0xF0, [])), None, 0)
  }

  /** The canonical frame parses as an I frame with its 14 address bytes,
      control byte 0x3E, PID 0xF0, no information bytes and FCS 0. */
  lemma CanonicalFrameParses()
    ensures TryParse(CANONICAL) == Success(CanonicalFrame())
  {
    CanonicalWellFormed();
    CanonicalLayout();
    ParseLayout(CanonicalFrame(), 1);
  }

  lemma CanonicalWellFormed()
    ensures WellFormed(CanonicalFrame())
  {
    var a := K8MMO + WB4JFI;
    assert GroupEnds(a, 1) && !GroupEnds(a, 0);
    assert IsAddressChain(a);
    assert GetFrameType(0x3E) == Information;
  }

  lemma CanonicalLayout()
    ensures CANONICAL == Flags(1) + Layout(CanonicalFrame()) + [FLAG]
  {
    var f := CanonicalFrame();
    assert Tail(f) == [0xF0, 0x00, 0x00];
    assert Flags(1) == [FLAG];
  }

  lemma K8mmoAddress()
    ensures Address.FromBytes(K8MMO).Success?
    ensures Address.FromBytes(K8MMO).value.callsign == "K8MMO"
    ensures Address.FromBytes(K8MMO).value.ssid == 0
  {
    Address.PaddedCallsignDecodes(K8MMO, "K8MMO");
  }

  lemma Wb4jfiAddress()
    ensures Address.FromBytes(WB4JFI).Success?
    ensures Address.FromBytes(WB4JFI).value.callsign == "WB4JFI"
    ensures Address.FromBytes(WB4JFI).value.ssid == 0
    ensures Address.FromBytes(WB4JFI).value.isLastAddress
  {
    Address.PaddedCallsignDecodes(WB4JFI, "WB4JFI");
  }

  /** The control byte of the canonical frame decodes as an I frame with
      N(R) 1, N(S) 7 and P set. */
  lemma CanonicalControlFields()
    ensures CanonicalFrame().ControlFields() == Success(IFields(1, 7, true))
  {
  }

  /** The canonical frame carries no layer 3 protocol. */
  lemma CanonicalProtocolId()
    ensures CanonicalFrame().informationFrameFields.value.ProtocolId() == Success(Pid.NoLayer3Protocol)
  {
  }

  /** The canonical frame is addressed to K8MMO. */
  lemma CanonicalDestination()
    ensures var d := CanonicalFrame().DestinationAddress();
      d.Success? && d.value.callsign == "K8MMO" && d.value.ssid == 0
  {
    assert Take(K8MMO + WB4JFI, 7) == K8MMO;
    K8mmoAddress();
  }

  /** The canonical frame comes from WB4JFI alone, the last address. */
  lemma CanonicalSources()
    ensures var s := CanonicalFrame().SourceAddresses();
      && s.Success? && |s.value| == 1
      && s.value[0].callsign == "WB4JFI" && s.value[0].ssid == 0 && s.value[0].isLastAddress
  {
    var a := CanonicalFrame().addressFieldBytes;
    assert |a| == 14 && a[7..14] == WB4JFI;
    var s := CanonicalFrame().SourceAddresses();
    assert SourcesDecode(a, s.value) && |Skip(a, 7)| == 7;
    Wb4jfiAddress();
  }

  /** Parsing classifies neither the PID nor the control byte: an I frame
      whose PID is unknown still parses, and only reading `ProtocolId`
      fails. */
  lemma UnknownPidFailsLate(address: seq<byte>, info: seq<byte>, f: fcs)
    requires IsAddressChain(address) && address != [] && address[0] != FLAG
    ensures var i := Frame(address, 0x00, Information, Some(InformationFrameFields(0xC0, info)), None, f);
      TryParse(Flags(1) + Layout(i) + [FLAG]) == Success(i)
      && i.informationFrameFields.value.ProtocolId() == Failure(UnknownProtocolId(0xC0))
  {
    var i := Frame(address, 0x00, Information, Some(InformationFrameFields(0xC0, info)), None, f);
    Pid.ProtocolIdExamples();
    assert GetFrameType(0x00) == Information;
    assert WellFormed(i);
    ParseLayout(i, 1);
  }

  /** Likewise an S frame whose low nibble is 1101 parses, and only reading
      `ControlFields` fails. */
  lemma UnknownSupervisoryFailsLate(address: seq<byte>, f: fcs)
    requires IsAddressChain(address) && |address| == 14 && address[0] != FLAG
    ensures var s := Frame(address, 0x0D, Supervisory, None, Some(GetAx25V2SFrameType(address).value), f);
      TryParse(Flags(1) + Layout(s) + [FLAG]) == Success(s)
      && s.ControlFields() == Failure(UnknownSupervisoryType(0x0D))
  {
    var s := Frame(address, 0x0D, Supervisory, None, Some(GetAx25V2SFrameType(address).value), f);
    SupervisoryParses(s);
    assert s.ControlFields() == DecodeControlByte(0x0D);
  }

  lemma SupervisoryParses(s: Frame)
    requires IsAddressChain(s.addressFieldBytes) && |s.addressFieldBytes| == 14 && s.addressFieldBytes[0] != FLAG
    requires s.controlByte == 0x0D && s.frameType == Supervisory && s.informationFrameFields == None
    requires s.supervisoryFrameFields == Some(GetAx25V2SFrameType(s.addressFieldBytes).value)
    ensures TryParse(Flags(1) + Layout(s) + [FLAG]) == Success(s)
  {
    assert GetFrameType(0x0D) == Supervisory;
    assert WellFormed(s);
    ParseLayout(s, 1);
  }
}
