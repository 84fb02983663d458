/** Byte-level vocabulary shared by the KISS and AX.25 codecs. */
module Bytes {

  /** An octet, as the C# `byte`. */
  type byte = bv8

  /** A C# `byte` seen as a number (sequence numbers, SSIDs). */
  type uint8 = n: nat | n < 256

  /** Bit `i` of `b`, where bit 0 is the least significant: the indexing of
      `new BitArray(new[] { b })`. */
  predicate Bit(b: byte, i: nat)
    requires i < 8
  {
    (b >> i) & 1 == 1
  }

  /** `bool[].ConvertToByte()`: the first element is the most significant
      bit, so the result is the bits' positional value and fits in as many
      bits as there are elements. */
  function MsbFirst(bits: seq<bool>): (r: nat)
    ensures r == BitsValue(bits)
    ensures r < Pow2(|bits|)
  {
    MsbFirstFromValue(0, bits);
    BitsValueBound(bits);
    MsbFirstFrom(0, bits)
  }

  function Pow2(n: nat): (p: nat)
    ensures p >= 1
  {
    if n == 0 then 1 else 2 * Pow2(n - 1)
  }

  /** The positional value of a bit string whose LAST element is the least
      significant bit. */
  function BitsValue(bits: seq<bool>): nat
    decreases |bits|
  {
    if bits == [] then 0
    else 2 * BitsValue(bits[..|bits| - 1]) + (if bits[|bits| - 1] then 1 else 0)
  }

  /** The first of `bits` weighs `2^(|bits| - 1)`. */
  lemma {:induction false} BitsValuePrepend(bits: seq<bool>)
    requires bits != []
    ensures BitsValue(bits) == (if bits[0] then Pow2(|bits| - 1) else 0) + BitsValue(bits[1..])
    decreases |bits|
  {
    if |bits| > 1 {
      var init := bits[..|bits| - 1];
      BitsValuePrepend(init);
      assert init[1..] == bits[1..][..|bits[1..]| - 1];
      assert init[0] == bits[0];
    } else {
      assert bits[1..] == [];
      assert bits[..0] == [];
    }
  }

  /** `n` bits have a value below `2^n`. */
  lemma {:induction false} BitsValueBound(bits: seq<bool>)
    ensures BitsValue(bits) < Pow2(|bits|)
    decreases |bits|
  {
    if bits != [] {
      BitsValueBound(bits[..|bits| - 1]);
    }
  }

  /** The accumulator loop of `ConvertToByte`: the bits shift in below `acc`. */
  lemma {:induction false} MsbFirstFromValue(acc: nat, bits: seq<bool>)
    ensures MsbFirstFrom(acc, bits) == acc * Pow2(|bits|) + BitsValue(bits)
    decreases |bits|
  {
    if bits != [] {
      var v := if bits[0] then 1 else 0;
      var p := Pow2(|bits| - 1);
      assert MsbFirstFrom(acc, bits) == MsbFirstFrom(2 * acc + v, bits[1..]);
      MsbFirstFromValue(2 * acc + v, bits[1..]);
      BitsValuePrepend(bits);
      assert (if bits[0] then p else 0) == v * p;
      Distribute(acc, v, p);
    }
  }

  lemma Distribute(acc: nat, v: nat, p: nat)
    ensures (2 * acc + v) * p == acc * (2 * p) + v * p
  {
  }

  /** Shifts the bits of `bits` in below the value `acc`, first bit first. */
  function MsbFirstFrom(acc: nat, bits: seq<bool>): nat
    decreases |bits|
  {
    if bits == [] then acc
    else MsbFirstFrom(2 * acc + (if bits[0] then 1 else 0), bits[1..])
  }

  /** `BitArray.ConvertToByte()` on eight bits: element `i` becomes bit `i`. */
  function ByteOfBits(bits: seq<bool>): (b: byte)
    requires |bits| == 8
    ensures forall i :: 0 <= i < 8 ==> Bit(b, i) == bits[i]
  {
    (if bits[0] then 0x01 else 0) | (if bits[1] then 0x02 else 0)
    | (if bits[2] then 0x04 else 0) | (if bits[3] then 0x08 else 0)
    | (if bits[4] then 0x10 else 0) | (if bits[5] then 0x20 else 0)
    | (if bits[6] then 0x40 else 0) | (if bits[7] then 0x80 else 0)
  }

  /** The eight bits of `b`, least significant first: `new BitArray(new[] { b })`. */
  function BitsOf(b: byte): (bits: seq<bool>)
    ensures |bits| == 8 && forall i :: 0 <= i < 8 ==> bits[i] == Bit(b, i)
  {
    [Bit(b, 0), Bit(b, 1), Bit(b, 2), Bit(b, 3), Bit(b, 4), Bit(b, 5), Bit(b, 6), Bit(b, 7)]
  }

  /** Reading a byte's bits and converting them back gives the byte. */
  lemma ByteOfBitsOf(b: byte)
    ensures ByteOfBits(BitsOf(b)) == b
  {
    var r := ByteOfBits(BitsOf(b));
    assert Bit(r, 0) == Bit(b, 0) && Bit(r, 1) == Bit(b, 1) && Bit(r, 2) == Bit(b, 2) && Bit(r, 3) == Bit(b, 3);
    assert Bit(r, 4) == Bit(b, 4) && Bit(r, 5) == Bit(b, 5) && Bit(r, 6) == Bit(b, 6) && Bit(r, 7) == Bit(b, 7);
    BitsDetermineByte(r, b);
  }

  /** Two bytes with the same eight bits are equal. */
  lemma BitsDetermineByte(x: byte, y: byte)
    requires Bit(x, 0) == Bit(y, 0) && Bit(x, 1) == Bit(y, 1) && Bit(x, 2) == Bit(y, 2) && Bit(x, 3) == Bit(y, 3)
    requires Bit(x, 4) == Bit(y, 4) && Bit(x, 5) == Bit(y, 5) && Bit(x, 6) == Bit(y, 6) && Bit(x, 7) == Bit(y, 7)
    ensures x == y
  {
  }

  /** The conversions' expected values on the all-clear, 5 and all-set patterns. */
  lemma ConvertToByteExamples()
    ensures MsbFirst([false, false, false, false, false, false, false, false]) == 0
    ensures MsbFirst([false, false, false, false, false, true, false, true]) == 5
    ensures MsbFirst([true, true, true, true, true, true, true, true]) == 255
    ensures ByteOfBits([false, false, false, false, false, false, false, false]) == 0
    ensures ByteOfBits([true, false, true, false, false, false, false, false]) == 5
    ensures ByteOfBits([true, true, true, true, true, true, true, true]) == 255
  {
  }
}

/** Failures of the codecs. Every `throw` of the source becomes one of these. */
module Results {

  /** The C# `null` of a reference-typed or nullable property. */
  datatype Option<+T> = None | Some(value: T)

  datatype Error =
      // KISS
    | KissFrameTooShort
    | KissMissingLeadingFend
    | KissArityMismatch(expected: nat, got: nat)
    | KissPortOutOfRange(port: nat)
      // AX.25 address subfield
    | AddressLengthInvalid(got: nat)
      // AX.25 frame walk
    | AddressGroupTruncated
    | MissingByte
    | InformationFieldTooShort
    | FcsFieldTooShort
    | ExcessBytesAfterFcs(count: nat)
    | UnsupportedAddressCount(got: nat)
      // control field
    | SendSequenceNumberOutOfRange
    | ReceiveSequenceNumberOutOfRange
    | UnknownSupervisoryType(lowNibble: bv8)
      // protocol identifier
    | EscapePidUnsupported
    | UnknownProtocolId(pid: bv8)
    | BitIndexOutOfRange

  /** Either a value or the error the source would have thrown. */
  datatype Result<+T> = Success(value: T) | Failure(error: Error)
  {
    predicate IsFailure() {
      Failure?
    }

    function PropagateFailure<U>(): Result<U>
      requires Failure?
    {
      Failure(error)
    }

    function Extract(): T
      requires Success?
    {
      value
    }
  }
}
