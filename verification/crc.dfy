/** `Crc16Ccitt` of NAx25/FieldDecoding.cs: the table-driven, unreflected
    CRC-16 with polynomial 0x1021 and initial value 0xFFFF. The C# `ushort`
    arithmetic is 16-bit, so values here are `bv16` and every shift drops
    what leaves the top. */
module Crc16 {
  import opened Bytes

  type word = bv16

  const POLY: word := 0x1021
  const INITIAL: word := 0xFFFF

  /** The shift-register steps per input byte. */
  const BYTE_BITS: nat := 8

  /** One step of the shift register: shift left, and subtract (xor) the
      polynomial when the bit shifted out was set. */
  function Step(x: word): word {
    if x & 0x8000 != 0 then (x << 1) ^ POLY else x << 1
  }

  /** `n` steps of the shift register. */
  function Steps(x: word, n: nat): word {
    if n == 0 then x else Step(Steps(x, n - 1))
  }

  /** Entry `i` of the table: the register after eight steps from `i << 8`. */
  function TableEntry(i: byte): word {
    Steps((i as word) << 8, BYTE_BITS)
  }

  /** `n` single-bit left shifts. */
  function Shl(x: word, n: nat): word {
    if n == 0 then x else Shl(x, n - 1) << 1
  }

  /** Eight steps written out. */
  lemma StepsEight(x: word)
    ensures Steps(x, BYTE_BITS) == Step(Step(Step(Step(Step(Step(Step(Step(x))))))))
  {
    assert Steps(x, 1) == Step(x);
    assert Steps(x, 2) == Step(Steps(x, 1));
    assert Steps(x, 3) == Step(Steps(x, 2));
    assert Steps(x, 4) == Step(Steps(x, 3));
    assert Steps(x, 5) == Step(Steps(x, 4));
    assert Steps(x, 6) == Step(Steps(x, 5));
    assert Steps(x, 7) == Step(Steps(x, 6));
  }

  /** A byte shifted into the high half leaves the word after eight more
      shifts. */
  lemma ShlOut(x: word)
    requires x & 0xFF == 0
    ensures Shl(x, BYTE_BITS) == 0
  {
    assert Shl(x, 1) == x << 1;
    assert Shl(x, 2) == Shl(x, 1) << 1;
    assert Shl(x, 3) == Shl(x, 2) << 1;
    assert Shl(x, 4) == Shl(x, 3) << 1;
    assert Shl(x, 5) == Shl(x, 4) << 1;
    assert Shl(x, 6) == Shl(x, 5) << 1;
    assert Shl(x, 7) == Shl(x, 6) << 1;
  }

  /** The inner loop of the table build: `temp` after eight rounds from
      `a = i << 8`. Its `temp` and `a` are not the register themselves;
      their xor is, and `a` has left the word by the end. */
  method TableEntryLoop(i: byte) returns (temp: word)
    ensures temp == TableEntry(i)
  {
    temp := 0;
    var a: word := (i as word) << 8;
    var j := 0;
    while j < BYTE_BITS
      invariant 0 <= j <= BYTE_BITS
      invariant temp ^ a == Steps((i as word) << 8, j)
      invariant a == Shl((i as word) << 8, j)
    {
      InnerRound((i as word) << 8, j, temp, a);
      if (temp ^ a) & 0x8000 != 0 {
        temp := (temp << 1) ^ POLY;
      } else {
        temp := temp << 1;
      }
      a := a << 1;
      j := j + 1;
    }
    ShlOut((i as word) << 8);
    assert j == BYTE_BITS;
  }

  /** One round of the inner loop keeps its two invariants. */
  lemma InnerRound(x: word, j: nat, temp: word, a: word)
    requires temp ^ a == Steps(x, j)
    requires a == Shl(x, j)
    ensures (if (temp ^ a) & 0x8000 != 0 then (temp << 1) ^ POLY else temp << 1) ^ (a << 1)
            == Steps(x, j + 1)
    ensures a << 1 == Shl(x, j + 1)
  {
    RegisterStep(temp, a);
  }

  /** One round of the inner loop moves the register `temp ^ a` one step. */
  lemma RegisterStep(temp: word, a: word)
    ensures (if (temp ^ a) & 0x8000 != 0 then (temp << 1) ^ POLY else temp << 1) ^ (a << 1)
            == Step(temp ^ a)
  {
    ShiftXor(temp, a);
    if (temp ^ a) & 0x8000 != 0 {
      XorRotate(temp << 1, POLY, a << 1);
    }
  }

  lemma ShiftXor(u: word, v: word)
    ensures (u ^ v) << 1 == (u << 1) ^ (v << 1)
  {
  }

  lemma XorRotate(x: word, p: word, y: word)
    ensures (x ^ p) ^ y == (x ^ y) ^ p
  {
  }

  /** The table-building loop of `Crc16Ccitt`: entry `i` is the register
      after eight steps from `i << 8`. */
  method BuildTable() returns (table: seq<word>)
    ensures |table| == 256
    ensures forall b: byte :: table[b as int] == TableEntry(b)
  {
    table := [];
    var i := 0;
    while i < 256
      invariant 0 <= i <= 256 && |table| == i
      invariant forall k :: 0 <= k < i ==> table[k] == TableEntry(k as byte)
    {
      var temp := TableEntryLoop(i as byte);
      table := table + [temp];
      i := i + 1;
    }
  }

  /** The truncating cast `(byte)(crc >> 8)`: the high half of the
      register. */
  function HighByte(crc: word): (h: byte)
    ensures h as word == crc >> 8
  {
    (crc >> 8) as byte
  }

  /** One byte through the table: the line `crc = (crc << 8) ^ table[...]`. */
  function Update(crc: word, b: byte): word {
    (crc << 8) ^ TableEntry(HighByte(crc) ^ b)
  }

  /** Feeding a byte is xoring it into the high half of the register and
      then feeding a zero byte: the message enters the register from the
      top, as in the bit-at-a-time CRC. */
  lemma UpdateFeedsHighHalf(crc: word, b: byte)
    ensures Update(crc, b) == Update(crc ^ ((b as word) << 8), 0)
  {
    TopIndex(crc, b);
    TopShift(crc, b);
  }

  lemma TopIndex(crc: word, b: byte)
    ensures HighByte(crc ^ ((b as word) << 8)) ^ 0 == HighByte(crc) ^ b
  {
  }

  lemma TopShift(crc: word, b: byte)
    ensures (crc ^ ((b as word) << 8)) << 8 == crc << 8
  {
  }

  /** The CRC of `bytes` started from `crc`: a left fold of `Update`. */
  function CrcFrom(crc: word, bytes: seq<byte>): word {
    if bytes == [] then crc
    else Update(CrcFrom(crc, bytes[..|bytes| - 1]), bytes[|bytes| - 1])
  }

  /** `Crc16Ccitt`: it builds the table and folds it over the input from
      0xFFFF. */
  method Crc16Ccitt(bytes: seq<byte>) returns (crc: word)
    ensures crc == CrcFrom(INITIAL, bytes)
  {
    var table := BuildTable();
    crc := INITIAL;
    var i := 0;
    while i < |bytes|
      invariant 0 <= i <= |bytes|
      invariant crc == CrcFrom(INITIAL, bytes[..i])
    {
      var index := HighByte(crc) ^ bytes[i];
      var entry := table[index as int];
      LoopStep(bytes, i, crc, entry);
      crc := (crc << 8) ^ entry;
      i := i + 1;
    }
    assert bytes[..i] == bytes;
  }

  /** One round of the folding loop keeps its invariant: `entry` is the
      table entry the loop looks up. */
  lemma LoopStep(bytes: seq<byte>, i: nat, crc: word, entry: word)
    requires i < |bytes| && crc == CrcFrom(INITIAL, bytes[..i])
    requires entry == TableEntry(HighByte(crc) ^ bytes[i])
    ensures (crc << 8) ^ entry == CrcFrom(INITIAL, bytes[..i + 1])
  {
    FoldStep(bytes, i, crc);
    EntryUpdate(crc, bytes[i], entry);
  }

  lemma FoldStep(bytes: seq<byte>, i: nat, crc: word)
    requires i < |bytes| && crc == CrcFrom(INITIAL, bytes[..i])
    ensures Update(crc, bytes[i]) == CrcFrom(INITIAL, bytes[..i + 1])
  {
    CrcStep(INITIAL, bytes, i);
  }

  lemma EntryUpdate(crc: word, b: byte, entry: word)
    requires entry == TableEntry(HighByte(crc) ^ b)
    ensures (crc << 8) ^ entry == Update(crc, b)
  {
  }

  /** One more byte of the input is one more `Update`. */
  lemma CrcStep(crc: word, bytes: seq<byte>, i: nat)
    requires i < |bytes|
    ensures CrcFrom(crc, bytes[..i + 1]) == Update(CrcFrom(crc, bytes[..i]), bytes[i])
  {
    assert bytes[..i + 1][..i] == bytes[..i];
  }

  /** The CRC of nothing is the initial value. */
  lemma CrcOfEmpty()
    ensures CrcFrom(INITIAL, []) == 0xFFFF
  {
  }

  /** Continuing from the CRC of `a` over `b` gives the CRC of `a + b`. */
  lemma {:induction false} CrcAppend(crc: word, a: seq<byte>, b: seq<byte>)
    ensures CrcFrom(crc, a + b) == CrcFrom(CrcFrom(crc, a), b)
  {
    if b != [] {
      var ab := a + b;
      assert ab[..|ab| - 1] == a + b[..|b| - 1];
      assert ab[|ab| - 1] == b[|b| - 1];
      CrcAppend(crc, a, b[..|b| - 1]);
    } else {
      assert a + b == a;
    }
  }

  /** The first entries of the table: 0, the polynomial and its double. */
  lemma TableExamples()
    ensures TableEntry(0) == 0x0000
    ensures TableEntry(1) == 0x1021
    ensures TableEntry(2) == 0x2042
  {
    StepsEight(0x0000);
    StepsEight(0x0100);
    StepsEight(0x0200);
  }
}
