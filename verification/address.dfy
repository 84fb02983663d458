/** One AX.25 address subfield (NAx25/AddressField.cs): six callsign
    characters, each shifted left by one, then the SSID octet
    C R R S S S S E (C/R bit, two reserved bits, SSID, extension bit). */
module Address {
  import opened Bytes
  import opened Results

  const SPACE: char := ' '

  /** The fields the C# constructor fills in. */
  datatype AddressField = AddressField(
    callsign: string,
    ssid: byte,
    commandResponseBit: bool,
    reservedBit1: bool,
    reservedBit2: bool,
    isLastAddress: bool)

  /* ---------------------------------------------------------------- */
  /* Callsign                                                          */
  /* ---------------------------------------------------------------- */

  /** `(char)(b >> 1)`: the character a callsign octet carries. */
  function CallsignChar(b: byte): (c: char)
    ensures c as int == b as int / 2
    ensures c as int < 128
  {
    ((b >> 1) as int) as char
  }

  /** The six characters before trimming. */
  function RawCallsign(data: seq<byte>): (r: string)
    requires |data| >= 6
    ensures |r| == 6
    ensures forall i :: 0 <= i < 6 ==> r[i] == CallsignChar(data[i])
  {
    [CallsignChar(data[0]), CallsignChar(data[1]), CallsignChar(data[2]),
     CallsignChar(data[3]), CallsignChar(data[4]), CallsignChar(data[5])]
  }

  /** `s` with its leading spaces removed: a suffix of `s` that starts with a
      non-space, everything before it being spaces. */
  function TrimStart(s: string): (r: string)
    ensures |r| <= |s| && r == s[|s| - |r|..]
    ensures r == [] || r[0] != SPACE
    ensures forall k :: 0 <= k < |s| - |r| ==> s[k] == SPACE
  {
    if s != [] && s[0] == SPACE then TrimStart(s[1..]) else s
  }

  /** `s` with its trailing spaces removed: a prefix of `s` that ends with a
      non-space, everything after it being spaces. */
  function TrimEnd(s: string): (r: string)
    ensures |r| <= |s| && r == s[..|r|]
    ensures r == [] || r[|r| - 1] != SPACE
    ensures forall k :: |r| <= k < |s| ==> s[k] == SPACE
  {
    if s != [] && s[|s| - 1] == SPACE then TrimEnd(s[..|s| - 1]) else s
  }

  /** `r` is `s[i..j]` and only spaces lie outside that slice. */
  predicate SpaceTrim(s: string, i: nat, j: nat, r: string) {
    && i <= j <= |s| && r == s[i..j]
    && (forall k :: 0 <= k < i ==> s[k] == SPACE)
    && (forall k :: j <= k < |s| ==> s[k] == SPACE)
  }

  /** `String.Trim()`, for spaces: the slice `s[i..j]` that neither starts
      nor ends with a space, with only spaces cut off either side. */
  function Trim(s: string): (r: string)
    ensures exists i, j :: SpaceTrim(s, i, j, r)
    ensures r == [] || (r[0] != SPACE && r[|r| - 1] != SPACE)
  {
    var t := TrimStart(s);
    var r := TrimEnd(t);
    TrimIsSpaceTrim(s, t, r);
    assert SpaceTrim(s, |s| - |t|, |s| - |t| + |r|, r);
    r
  }

  /** A suffix cut after leading spaces, then a prefix of it cut before
      trailing spaces, is a slice of `s` with only spaces outside it, and
      it neither starts nor ends with a space. */
  lemma TrimIsSpaceTrim(s: string, t: string, r: string)
    requires |t| <= |s| && t == s[|s| - |t|..] && (t == [] || t[0] != SPACE)
    requires forall k :: 0 <= k < |s| - |t| ==> s[k] == SPACE
    requires |r| <= |t| && r == t[..|r|] && (r == [] || r[|r| - 1] != SPACE)
    requires forall k :: |r| <= k < |t| ==> t[k] == SPACE
    ensures SpaceTrim(s, |s| - |t|, |s| - |t| + |r|, r)
    ensures r == [] || (r[0] != SPACE && r[|r| - 1] != SPACE)
  {
    var i := |s| - |t|;
    assert r == s[i..i + |r|];
    forall k | i + |r| <= k < |s|
      ensures s[k] == SPACE
    {
      assert s[k] == t[k - i];
    }
    if r != [] {
      assert r[0] == t[0];
    }
  }

  /** A string of `n` spaces. */
  function Spaces(n: nat): (r: string)
    ensures |r| == n && forall k :: 0 <= k < n ==> r[k] == SPACE
  {
    if n == 0 then [] else [SPACE] + Spaces(n - 1)
  }

  lemma {:induction false} TrimEndSpaces(t: string, b: nat)
    requires t == [] || t[|t| - 1] != SPACE
    ensures TrimEnd(t + Spaces(b)) == t
  {
    if b > 0 {
      assert t + Spaces(b) == (t + Spaces(b - 1)) + [SPACE];
      TrimEndSpaces(t, b - 1);
    }
  }

  /** Trimming a word that starts and ends with a non-space and is padded
      with spaces on the right gives the word back. */
  lemma TrimPadded(w: string, b: nat)
    requires w == [] || (w[0] != SPACE && w[|w| - 1] != SPACE)
    ensures Trim(w + Spaces(b)) == w
  {
    var s := w + Spaces(b);
    if w == [] {
      assert s == Spaces(b);
      assert TrimStart(s) == [];
    } else {
      assert s[0] == w[0];
      assert TrimStart(s) == s;
      TrimEndSpaces(w, b);
    }
  }

  /* ---------------------------------------------------------------- */
  /* SSID octet                                                        */
  /* ---------------------------------------------------------------- */

  /** `new[] { ba[4], ba[3], ba[2], ba[1] }.ConvertToByte()`: the SSID is
      the four bits above the extension bit. */
  function SsidOf(b: byte): (ssid: byte)
    ensures ssid == (b >> 1) & 0x0F
  {
    var bits := [Bit(b, 4), Bit(b, 3), Bit(b, 2), Bit(b, 1)];
    MsbFirstOfFour(Bit(b, 4), Bit(b, 3), Bit(b, 2), Bit(b, 1));
    SsidBits(b);
    MsbFirst(bits) as byte
  }

  function BitValue(x: bool): nat {
    if x then 1 else 0
  }

  lemma MsbFirstOfFour(w: bool, x: bool, y: bool, z: bool)
    ensures MsbFirst([w, x, y, z]) == 8 * BitValue(w) + 4 * BitValue(x) + 2 * BitValue(y) + BitValue(z)
  {
    var bits := [w, x, y, z];
    assert bits[1..] == [x, y, z];
    assert bits[1..][1..] == [y, z];
    assert bits[1..][1..][1..] == [z];
    calc {
      MsbFirst(bits);
      MsbFirstFrom(BitValue(w), [x, y, z]);
      MsbFirstFrom(2 * BitValue(w) + BitValue(x), [y, z]);
      MsbFirstFrom(4 * BitValue(w) + 2 * BitValue(x) + BitValue(y), [z]);
      { assert [z][1..] == []; }
      MsbFirstFrom(8 * BitValue(w) + 4 * BitValue(x) + 2 * BitValue(y) + BitValue(z), []);
    }
  }

  lemma SsidBits(b: byte)
    ensures ((b >> 1) & 0x0F) as nat ==
      8 * BitValue(Bit(b, 4)) + 4 * BitValue(Bit(b, 3)) + 2 * BitValue(Bit(b, 2)) + BitValue(Bit(b, 1))
  {
  }

  /* ---------------------------------------------------------------- */
  /* Construction                                                      */
  /* ---------------------------------------------------------------- */

  /** `new AddressField(data)`. Exactly seven octets are accepted. The
      callsign is the trimmed text of octets 0..5, so it has at most six
      characters and no space at either end; the flags and SSID come from
      octet 6. */
  function FromBytes(data: seq<byte>): (r: Result<AddressField>)
    ensures r.Failure? <==> |data| != 7
    ensures r.Failure? ==> r.error == AddressLengthInvalid(|data|)
    ensures r.Success? ==>
      var a := r.value;
      && |a.callsign| <= 6
      && (a.callsign == [] || (a.callsign[0] != SPACE && a.callsign[|a.callsign| - 1] != SPACE))
      && a.ssid < 16
      && a.ssid == (data[6] >> 1) & 0x0F
      && a.commandResponseBit == ((data[6] & 0x80) != 0)
      && a.reservedBit1 == ((data[6] & 0x40) != 0)
      && a.reservedBit2 == ((data[6] & 0x20) != 0)
      && a.isLastAddress == ((data[6] & 0x01) != 0)
  {
    if |data| != 7 then Failure(AddressLengthInvalid(|data|))
    else
      var b := data[6];
      Success(AddressField(
        Trim(RawCallsign(data)),
        SsidOf(b),
        Bit(b, 7),
        Bit(b, 6),
        Bit(b, 5),
        Bit(b, 0)))
  }

  /** The SSID octet as the decoder reads it back: C/R in bit 7, the first
      reserved bit in bit 6, the second in bit 5, the SSID in bits 4..1 and
      the extension bit in bit 0. */
  function SsidOctet(isLast: bool, c: bool, r1: bool, r2: bool, ssid: byte): byte
    requires ssid < 16
  {
    (if c then 0x80 else 0) | (if r1 then 0x40 else 0) | (if r2 then 0x20 else 0)
    | (ssid << 1) | (if isLast then 0x01 else 0)
  }

  /** Octet 6 is recovered exactly from the decoded flags and SSID. */
  lemma SsidOctetOfDecoded(data: seq<byte>)
    requires |data| == 7
    ensures var a := FromBytes(data).value;
      SsidOctet(a.isLastAddress, a.commandResponseBit, a.reservedBit1, a.reservedBit2, a.ssid) == data[6]
  {
  }

  /** Decoding an SSID octet built from flags and an SSID gives them back. */
  lemma DecodedSsidOctet(data: seq<byte>, isLast: bool, c: bool, r1: bool, r2: bool, ssid: byte)
    requires |data| == 7 && ssid < 16
    requires data[6] == SsidOctet(isLast, c, r1, r2, ssid)
    ensures var a := FromBytes(data).value;
      a.isLastAddress == isLast && a.commandResponseBit == c && a.reservedBit1 == r1
      && a.reservedBit2 == r2 && a.ssid == ssid
  {
  }

  lemma CallsignCharIgnoresBit0(b: byte)
    ensures CallsignChar(b ^ 0x01) == CallsignChar(b)
  {
    assert (b ^ 0x01) >> 1 == b >> 1;
  }

  /** The extension bit of octets 0..5 never reaches the callsign. */
  lemma ExtensionBitIgnored(data: seq<byte>, i: nat)
    requires |data| == 7 && i < 6
    ensures FromBytes(data[i := data[i] ^ 0x01]) == FromBytes(data)
  {
    var d := data[i := data[i] ^ 0x01];
    CallsignCharIgnoresBit0(data[i]);
    assert forall k :: 0 <= k < 6 ==> CallsignChar(d[k]) == CallsignChar(data[k]);
    assert RawCallsign(d) == RawCallsign(data);
    assert d[6] == data[6];
  }

  /** A callsign of up to six characters, with no space at either end,
      written one character per octet shifted left by one and padded with
      spaces, is decoded as itself. */
  lemma PaddedCallsignDecodes(data: seq<byte>, call: string)
    requires |data| == 7 && |call| <= 6
    requires call == [] || (call[0] != SPACE && call[|call| - 1] != SPACE)
    requires forall i :: 0 <= i < 6 ==>
      data[i] as int / 2 == (if i < |call| then call[i] else SPACE) as int
    ensures FromBytes(data).value.callsign == call
  {
    var raw := RawCallsign(data);
    assert raw == call + Spaces(6 - |call|);
    TrimPadded(call, 6 - |call|);
  }

  /* ---------------------------------------------------------------- */
  /* ToString                                                          */
  /* ---------------------------------------------------------------- */

  function DigitChar(d: nat): (c: char)
    requires d < 10
    ensures '0' <= c <= '9'
  {
    ('0' as int + d) as char
  }

  predicate IsDigits(s: string) {
    forall k :: 0 <= k < |s| ==> '0' <= s[k] <= '9'
  }

  /** The number a string of decimal digits denotes. */
  function DecimalValue(s: string): nat
    requires IsDigits(s)
  {
    if s == [] then 0
    else 10 * DecimalValue(s[..|s| - 1]) + (s[|s| - 1] as int - '0' as int)
  }

  /** Decimal text of `n`, as string interpolation writes a `byte`: digits
      only, no leading zero, and denoting `n`. */
  function NatToDecimal(n: nat): (s: string)
    ensures |s| >= 1 && IsDigits(s)
    ensures DecimalValue(s) == n
    ensures |s| > 1 ==> s[0] != '0'
  {
    if n < 10 then [DigitChar(n)]
    else
      var s := NatToDecimal(n / 10) + [DigitChar(n % 10)];
      assert s[..|s| - 1] == NatToDecimal(n / 10);
      s
  }

  /** `ToString()`: the bare callsign for SSID 0, otherwise the callsign, a
      hyphen and the SSID in decimal. */
  function ToString(a: AddressField): (r: string)
    ensures a.ssid == 0 ==> r == a.callsign
    ensures a.ssid != 0 ==>
      && |r| > |a.callsign| + 1
      && r[..|a.callsign|] == a.callsign
      && r[|a.callsign|] == '-'
      && IsDigits(r[|a.callsign| + 1..])
      && DecimalValue(r[|a.callsign| + 1..]) == a.ssid as nat
      && r[|a.callsign| + 1] != '0'
  {
    if a.ssid == 0 then a.callsign
    else
      var digits := NatToDecimal(a.ssid as nat);
      var r := a.callsign + "-" + digits;
      assert r[|a.callsign| + 1..] == digits;
      assert digits[0] != '0' by {
        if |digits| == 1 { assert DecimalValue(digits) == DecimalValue([]) * 10 + (digits[0] as int - '0' as int); }
      }
      r
  }

  /* ---------------------------------------------------------------- */
  /* Test vector                                                       */
  /* ---------------------------------------------------------------- */

  /** The address subfield of WB4JFI with SSID 5 and both reserved bits
      set, with the given extension and C/R bits. */
  function Wb4jfiOctets(isLast: bool, c: bool): (d: seq<byte>)
    ensures |d| == 7
  {
    [0xae, 0x84, 0x68, 0x94, 0x8c, 0x92, SsidOctet(isLast, c, true, true, 5)]
  }

  /** That subfield decodes as WB4JFI-5 for every combination of extension
      bit and C/R bit. */
  lemma Wb4jfiExample(isLast: bool, c: bool)
    ensures var r := FromBytes(Wb4jfiOctets(isLast, c));
      && r.Success?
      && r.value.callsign == "WB4JFI"
      && r.value.ssid == 5
      && r.value.commandResponseBit == c
      && r.value.reservedBit1 && r.value.reservedBit2
      && r.value.isLastAddress == isLast
      && ToString(r.value) == "WB4JFI-5"
  {
    var d := Wb4jfiOctets(isLast, c);
    assert |d| == 7 && d[..6] == [0xae, 0x84, 0x68, 0x94, 0x8c, 0x92];
    assert d[6] == SsidOctet(isLast, c, true, true, 5);
    var a := FromBytes(d).value;
    Wb4jfiCallsign(d);
    DecodedSsidOctet(d, isLast, c, true, true, 5);
    Ssid5Text(a);
  }

  lemma Wb4jfiCallsign(d: seq<byte>)
    requires |d| == 7 && d[..6] == [0xae, 0x84, 0x68, 0x94, 0x8c, 0x92]
    ensures FromBytes(d).value.callsign == "WB4JFI"
  {
    PaddedCallsignDecodes(d, "WB4JFI");
  }

  lemma Ssid5Text(a: AddressField)
    requires a.callsign == "WB4JFI" && a.ssid == 5
    ensures ToString(a) == "WB4JFI-5"
  {
    assert NatToDecimal(5) == "5";
  }
}
