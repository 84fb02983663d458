/** The field splitters of an unflagged AX.25 frame (NAx25/Decoding.cs,
    repeated in NAx25/FieldDecoding.cs): the address chain, single bytes,
    the information field and the frame-check sequence. A C# slice or index
    out of range becomes a `Failure`. */
module Decoding {
  import opened Bytes
  import opened Results

  type fcs = bv16

  /* ---------------------------------------------------------------- */
  /* Address chain                                                     */
  /* ---------------------------------------------------------------- */

  /** Group `k` (octets `7k .. 7k + 6`) is whole and its last octet has the
      extension bit set, so it closes the address chain. */
  predicate GroupEnds(data: seq<byte>, k: nat) {
    7 * k + 7 <= |data| && Bit(data[7 * k + 6], 0)
  }

  /** None of the groups `lo .. hi - 1` closes the chain. */
  predicate NoEndBetween(data: seq<byte>, lo: nat, hi: nat) {
    forall k :: lo <= k < hi ==> !GroupEnds(data, k)
  }

  /** The `for` loop over 7-octet groups, from group `g` on: the length of
      the address field when some group closes it, 0 when the input runs
      out at a group boundary, and a failure when the loop reaches a partial
      group, whose slice `data[i..(i + 7)]` is out of range. */
  function ScanFrom(data: seq<byte>, g: nat): (r: Result<nat>)
    requires 7 * g <= |data|
    ensures r.Success? && r.value != 0 ==>
      && 7 * g < r.value <= |data| && r.value % 7 == 0
      && GroupEnds(data, r.value / 7 - 1)
      && NoEndBetween(data, g, r.value / 7 - 1)
    ensures r == Success(0) ==> |data| % 7 == 0 && NoEndBetween(data, g, |data| / 7)
    ensures r.Failure? ==>
      && r.error == AddressGroupTruncated
      && |data| % 7 != 0 && NoEndBetween(data, g, |data| / 7)
    decreases |data| - 7 * g
  {
    if 7 * g == |data| then Success(0)
    else if 7 * g + 7 > |data| then Failure(AddressGroupTruncated)
    else if Bit(data[7 * g + 6], 0) then Success(7 * g + 7)
    else ScanFrom(data, g + 1)
  }

  /** `ConsumeAddressField`: the address field and the rest. The field ends
      with the first whole group whose last octet has the extension bit set;
      if no group does and the input is whole groups, the field is empty;
      if no group does and the input ends in a partial group, it fails. */
  function ConsumeAddressField(data: seq<byte>): (r: Result<(seq<byte>, seq<byte>)>)
    ensures r.Success? ==> r.value.0 + r.value.1 == data
    ensures r.Failure? <==> |data| % 7 != 0 && NoEndBetween(data, 0, |data| / 7)
    ensures r.Failure? ==> r.error == AddressGroupTruncated
    ensures r.Success? && r.value.0 != [] ==>
      var n := |r.value.0|;
      n % 7 == 0 && GroupEnds(data, n / 7 - 1) && NoEndBetween(data, 0, n / 7 - 1)
    ensures r.Success? && r.value.0 == [] ==>
      r.value.1 == data && |data| % 7 == 0 && NoEndBetween(data, 0, |data| / 7)
  {
    var n :- ScanFrom(data, 0);
    assert data[..n] + data[n..] == data;
    Success((data[..n], data[n..]))
  }

  /** The field ends at the first closing group, whatever follows it. */
  lemma AddressFieldOfClosedGroup(data: seq<byte>, k: nat)
    requires GroupEnds(data, k) && NoEndBetween(data, 0, k)
    ensures ConsumeAddressField(data) == Success((data[..7 * k + 7], data[7 * k + 7..]))
  {
  }

  /** An address chain: whole groups, the last of them closing it and no
      other; the empty chain included. */
  predicate IsAddressChain(a: seq<byte>) {
    |a| % 7 == 0 && (a != [] ==> GroupEnds(a, |a| / 7 - 1) && NoEndBetween(a, 0, |a| / 7 - 1))
  }

  /** Group `k` of a prefix is group `k` of the whole. */
  lemma GroupsOfPrefix(data: seq<byte>, n: nat, k: nat)
    requires n <= |data| && 7 * k + 7 <= n
    ensures GroupEnds(data[..n], k) == GroupEnds(data, k)
  {
    assert data[..n][7 * k + 6] == data[7 * k + 6];
  }

  /** What `ConsumeAddressField` splits off is an address chain. */
  lemma AddressFieldIsChain(data: seq<byte>)
    requires ConsumeAddressField(data).Success?
    ensures IsAddressChain(ConsumeAddressField(data).value.0)
  {
    var a := ConsumeAddressField(data).value.0;
    var n := |a|;
    assert a == data[..n];
    if a != [] {
      GroupsOfPrefix(data, n, n / 7 - 1);
      forall k | 0 <= k < n / 7 - 1
        ensures !GroupEnds(a, k)
      {
        GroupsOfPrefix(data, n, k);
      }
    }
  }

  /** A non-empty address chain splits off whatever follows it. */
  lemma ChainSplitsOff(a: seq<byte>, rest: seq<byte>)
    requires IsAddressChain(a) && a != []
    ensures ConsumeAddressField(a + rest) == Success((a, rest))
  {
    var data := a + rest;
    var k := |a| / 7 - 1;
    assert data[..|a|] == a && data[|a|..] == rest;
    GroupsOfPrefix(data, |a|, k);
    forall j | 0 <= j < k
      ensures !GroupEnds(data, j)
    {
      GroupsOfPrefix(data, |a|, j);
    }
    AddressFieldOfClosedGroup(data, k);
  }

  /* ---------------------------------------------------------------- */
  /* Single bytes, information field, FCS                              */
  /* ---------------------------------------------------------------- */

  /** `ConsumeByte`: the first byte and the rest; `data[0]` fails on an
      empty input. */
  function ConsumeByte(data: seq<byte>): (r: Result<(byte, seq<byte>)>)
    ensures r.Failure? <==> data == []
    ensures r.Failure? ==> r.error == MissingByte
    ensures r.Success? ==> [r.value.0] + r.value.1 == data
  {
    if data == [] then Failure(MissingByte)
    else
      assert [data[0]] + data[1..] == data;
      Success((data[0], data[1..]))
  }

  /** `ConsumeInformationField`: everything but the last two bytes, and
      those two; `data[0..^2]` fails on fewer than two bytes. */
  function ConsumeInformationField(data: seq<byte>): (r: Result<(seq<byte>, seq<byte>)>)
    ensures r.Failure? <==> |data| < 2
    ensures r.Failure? ==> r.error == InformationFieldTooShort
    ensures r.Success? ==> r.value.0 + r.value.1 == data && |r.value.1| == 2
  {
    if |data| < 2 then Failure(InformationFieldTooShort)
    else
      assert data[..|data| - 2] + data[|data| - 2..] == data;
      Success((data[..|data| - 2], data[|data| - 2..]))
  }

  /** The two FCS bytes as they stand in the frame: low byte first. */
  function FcsBytes(f: fcs): (r: seq<byte>)
    ensures |r| == 2
  {
    [(f & 0xFF) as byte, (f >> 8) as byte]
  }

  /** `ConsumeFcsField`: `BitConverter.ToUInt16` of the first two bytes,
      read little-endian, and every byte after them; `data[0..2]` fails on
      fewer than two bytes. */
  function ConsumeFcsField(data: seq<byte>): (r: Result<(fcs, seq<byte>)>)
    ensures r.Failure? <==> |data| < 2
    ensures r.Failure? ==> r.error == FcsFieldTooShort
    ensures r.Success? ==>
      && FcsBytes(r.value.0) + r.value.1 == data
      && r.value.0 as int == data[0] as int + 256 * data[1] as int
  {
    if |data| < 2 then Failure(FcsFieldTooShort)
    else
      var f := (data[0] as fcs) | ((data[1] as fcs) << 8);
      LittleEndian(data[0], data[1]);
      assert FcsBytes(f) == data[..2];
      assert data[..2] + data[2..] == data;
      Success((f, data[2..]))
  }

  /** Two bytes read low byte first. */
  lemma LittleEndian(lo: byte, hi: byte)
    ensures var f := (lo as fcs) | ((hi as fcs) << 8);
      && FcsBytes(f) == [lo, hi]
      && f as int == lo as int + 256 * hi as int
  {
    var f := (lo as fcs) | ((hi as fcs) << 8);
    assert (f & 0xFF) as byte == lo;
    assert (f >> 8) as byte == hi;
  }

  /** Reading back the two bytes of an FCS gives the FCS. */
  lemma ConsumeFcsBytes(f: fcs, rest: seq<byte>)
    ensures ConsumeFcsField(FcsBytes(f) + rest) == Success((f, rest))
  {
    var data := FcsBytes(f) + rest;
    var g := ConsumeFcsField(data).value.0;
    assert FcsBytes(g) == FcsBytes(f);
    FcsBytesInjective(g, f);
    assert data[2..] == rest;
  }

  lemma FcsBytesInjective(f: fcs, g: fcs)
    requires FcsBytes(f) == FcsBytes(g)
    ensures f == g
  {
    assert (f & 0xFF) as byte == (g & 0xFF) as byte;
    assert (f >> 8) as byte == (g >> 8) as byte;
  }

  /** `EncodeFcs`: its argument is ignored, and what comes out is the FCS
      0 in frame order. */
  function EncodeFcs(f: fcs): (r: seq<byte>)
    ensures r == FcsBytes(0)
  {
    [0x00, 0x00]
  }

  /** The FCS written by `EncodeFcs` reads back only when it was 0; every
      other value reads back as 0. */
  lemma EncodeFcsReadsBack(f: fcs, rest: seq<byte>)
    ensures ConsumeFcsField(EncodeFcs(f) + rest) == Success((0, rest))
    ensures ConsumeFcsField(EncodeFcs(f) + rest) == Success((f, rest)) <==> f == 0
  {
    ConsumeFcsBytes(0, rest);
    assert EncodeFcs(f) == FcsBytes(0);
  }
}
