/** The KISS TNC frame format: one frame is FEND, a port/command byte, the
    byte-stuffed payload and a closing FEND (NAx25/KissFraming.cs). */
module KissFraming {
  import opened Bytes
  import opened Results

  const FEND: byte := 0xC0
  const FESC: byte := 0xDB
  const TFEND: byte := 0xDC
  const TFESC: byte := 0xDD

  /** `KissCommandCode`. The C# enum is byte-sized, so a cast of any byte is a
      value of it; the codes without a name are `Unnamed`. */
  datatype CommandCode =
    | DataFrame
    | TxDelay
    | Persistence
    | SlotTime
    | TxTail
    | FullDuplex
    | SetHardware
    | ExitKissMode
    | Unnamed(code: byte)
  {
    /** The enum's underlying byte. */
    function Value(): byte {
      match this
      case DataFrame => 0x00
      case TxDelay => 0x01
      case Persistence => 0x02
      case SlotTime => 0x03
      case TxTail => 0x04
      case FullDuplex => 0x05
      case SetHardware => 0x06
      case ExitKissMode => 0xFF
      case Unnamed(c) => c
    }

    /** `Unnamed` never stands for a code that has a name. */
    predicate Valid() {
      Unnamed? ==> (code > 0x06 && code != 0xFF)
    }

    /** TxDelay .. FullDuplex carry exactly one parameter byte. */
    predicate ExpectsOneByte() {
      0x01 <= Value() <= 0x05
    }
  }

  /** The cast `(KissCommandCode)v`. */
  function FromValue(v: byte): (c: CommandCode)
    ensures c.Valid() && c.Value() == v
  {
    if v == 0x00 then DataFrame
    else if v == 0x01 then TxDelay
    else if v == 0x02 then Persistence
    else if v == 0x03 then SlotTime
    else if v == 0x04 then TxTail
    else if v == 0x05 then FullDuplex
    else if v == 0x06 then SetHardware
    else if v == 0xFF then ExitKissMode
    else Unnamed(v)
  }

  /** The cast back from the underlying byte loses nothing. */
  lemma FromValueOfValue(c: CommandCode)
    requires c.Valid()
    ensures FromValue(c.Value()) == c
  {
  }

  /** One decoded KISS frame: the unescaped payload, the port and the command. */
  datatype KissFrame = KissFrame(payload: seq<byte>, port: nat, command: CommandCode)

  /* ---------------------------------------------------------------- */
  /* Byte stuffing                                                     */
  /* ---------------------------------------------------------------- */

  function EscapeByte(b: byte): seq<byte> {
    if b == FEND then [FESC, TFEND]
    else if b == FESC then [FESC, TFESC]
    else [b]
  }

  /** The number of occurrences of `x` in `s`. */
  function Count(s: seq<byte>, x: byte): nat {
    if s == [] then 0 else (if s[0] == x then 1 else 0) + Count(s[1..], x)
  }

  /** FEND becomes FESC TFEND, FESC becomes FESC TFESC, every other byte is
      copied. The result never holds a FEND, and grows by one byte per
      FEND or FESC of the input. */
  function Escape(raw: seq<byte>): (r: seq<byte>)
    ensures FEND !in r
    ensures |r| == |raw| + Count(raw, FEND) + Count(raw, FESC)
    ensures FEND !in raw && FESC !in raw ==> r == raw
  {
    if raw == [] then []
    else
      assert raw == [raw[0]] + raw[1..];
      EscapeByte(raw[0]) + Escape(raw[1..])
  }

  /** The left-to-right scan that undoes `Escape`: FESC TFEND gives FEND,
      FESC TFESC gives FESC, and any other byte, a lone FESC included, is
      copied. */
  function Unescape(escaped: seq<byte>): (r: seq<byte>)
    ensures |r| <= |escaped|
    ensures FESC !in escaped ==> r == escaped
  {
    if |escaped| == 0 then []
    else if escaped[0] == FESC && |escaped| >= 2 && escaped[1] == TFEND then
      [FEND] + Unescape(escaped[2..])
    else if escaped[0] == FESC && |escaped| >= 2 && escaped[1] == TFESC then
      [FESC] + Unescape(escaped[2..])
    else
      assert escaped == [escaped[0]] + escaped[1..];
      [escaped[0]] + Unescape(escaped[1..])
  }

  /** Unstuffing undoes stuffing for every payload. */
  lemma {:induction false} UnescapeEscape(raw: seq<byte>)
    ensures Unescape(Escape(raw)) == raw
  {
    if raw != [] {
      var b, rest := raw[0], raw[1..];
      var tail := Escape(rest);
      var e := Escape(raw);
      assert e == EscapeByte(b) + tail;
      UnescapeEscape(rest);
      if b == FEND {
        assert e[0] == FESC && e[1] == TFEND && e[2..] == tail;
        assert Unescape(e) == [FEND] + Unescape(tail);
      } else if b == FESC {
        assert e[0] == FESC && e[1] == TFESC && e[2..] == tail;
        assert Unescape(e) == [FESC] + Unescape(tail);
      } else {
        assert e[0] == b && e[1..] == tail;
        assert Unescape(e) == [b] + Unescape(tail);
      }
      assert raw == [b] + rest;
    }
  }

  /* ---------------------------------------------------------------- */
  /* Framing                                                           */
  /* ---------------------------------------------------------------- */

  /** `kissFrame.Where(b => b != FEND)`: every FEND, wherever it stands, is dropped. */
  function StripFends(s: seq<byte>): (r: seq<byte>)
    ensures FEND !in r
    ensures |r| <= |s|
    ensures FEND !in s ==> r == s
  {
    if s == [] then []
    else
      assert s == [s[0]] + s[1..];
      (if s[0] == FEND then [] else [s[0]]) + StripFends(s[1..])
  }

  /** Dropping FENDs commutes with concatenation. */
  lemma {:induction false} StripFendsAppend(a: seq<byte>, b: seq<byte>)
    ensures StripFends(a + b) == StripFends(a) + StripFends(b)
  {
    if a == [] {
      assert a + b == b;
    } else {
      assert (a + b)[0] == a[0];
      assert (a + b)[1..] == a[1..] + b;
      StripFendsAppend(a[1..], b);
    }
  }

  /** `Skip(n)`: the whole sequence is dropped when it is shorter than `n`. */
  function Skip(s: seq<byte>, n: nat): (r: seq<byte>)
    ensures |r| == if |s| <= n then 0 else |s| - n
  {
    if |s| <= n then [] else s[n..]
  }

  /** The still-escaped bytes after the command byte: the FEND-free bytes
      with the first of them skipped. */
  function EscapedBody(frame: seq<byte>): (r: seq<byte>)
    ensures FEND !in r
    ensures StripFends(frame) == [] ==> r == []
    ensures StripFends(frame) != [] ==> [StripFends(frame)[0]] + r == StripFends(frame)
  {
    var kept := StripFends(frame);
    assert kept != [] ==> [kept[0]] + kept[1..] == kept;
    Skip(kept, 1)
  }

  /** The port, from the high nibble of the second byte. */
  function PortOf(second: byte): (p: nat)
    ensures p <= 15
    ensures 16 * p <= second as nat < 16 * p + 16
  {
    (second >> 4) as nat
  }

  /** The command, from the low nibble of the second byte, except that the
      all-ones byte is ExitKissMode. */
  function CommandOf(second: byte): (c: CommandCode)
    ensures c.Valid()
    ensures c == ExitKissMode <==> second == 0xFF
    ensures second != 0xFF ==> c.Value() == second & 0x0F
  {
    if second & 0x0F == 0x0F && second >> 4 == 0x0F then ExitKissMode
    else FromValue(second & 0x0F)
  }

  /** The per-command rule on the number of still-escaped payload bytes. */
  predicate ArityOk(command: CommandCode, escapedLength: nat) {
    if command.ExpectsOneByte() then escapedLength == 1
    else if command == ExitKissMode then escapedLength == 0
    else true
  }

  /** `(byte)(portIndex << 4 | (byte)commandCode)`. */
  function SecondByte(port: nat, command: CommandCode): byte
    requires port <= 15
  {
    ((port as byte) << 4) | command.Value()
  }

  /** A port and a nibble-sized command share the second byte without overlap. */
  lemma SecondByteSplits(port: nat, command: CommandCode)
    requires port <= 15 && command.Value() < 16
    ensures PortOf(SecondByte(port, command)) == port
    ensures SecondByte(port, command) & 0x0F == command.Value()
  {
    NibblesSplit(port as byte, command.Value());
  }

  /** Two nibbles packed into one byte are read back unchanged. */
  lemma NibblesSplit(high: byte, low: byte)
    requires high < 16 && low < 16
    ensures ((high << 4) | low) >> 4 == high
    ensures ((high << 4) | low) & 0x0F == low
  {
  }

  /** `KissFraming.Kiss`: wrap a payload for the given port and command. */
  function Kiss(raw: seq<byte>, port: nat, command: CommandCode): (r: Result<seq<byte>>)
    ensures r.Failure? <==> port > 15
    ensures r.Success? ==> |r.value| == 3 + |raw| + Count(raw, FEND) + Count(raw, FESC)
    ensures r.Success? ==> r.value[0] == FEND && r.value[|r.value| - 1] == FEND
    ensures r.Success? ==> FEND !in r.value[2..|r.value| - 1]
    ensures r.Success? ==> r.value[2..|r.value| - 1] == Escape(raw)
    ensures r.Success? && command.Value() < 16 ==>
              PortOf(r.value[1]) == port && r.value[1] & 0x0F == command.Value()
    ensures r.Success? && command == ExitKissMode ==> r.value[1] == 0xFF
  {
    if port > 15 then Failure(KissPortOutOfRange(port))
    else
      var second := SecondByte(port, command);
      assert command.Value() < 16 ==> PortOf(second) == port && second & 0x0F == command.Value() by {
        if command.Value() < 16 { SecondByteSplits(port, command); }
      }
      var framed := [FEND, second] + Escape(raw) + [FEND];
      assert framed[2..|framed| - 1] == Escape(raw);
      Success(framed)
  }

  /** `KissFraming.Unkiss`: check the frame, split the second byte into port
      and command, drop every FEND, skip the command byte, check the arity
      on the still-escaped bytes, then unescape. */
  function Unkiss(frame: seq<byte>): (r: Result<KissFrame>)
    ensures r.Failure? <==>
              |frame| < 3 || frame[0] != FEND || !ArityOk(CommandOf(frame[1]), |EscapedBody(frame)|)
    ensures r.Success? ==> r.value.port == PortOf(frame[1]) && r.value.port <= 15
    ensures r.Success? ==> r.value.command == CommandOf(frame[1])
    ensures r.Success? ==> |r.value.payload| <= |EscapedBody(frame)| <= |frame| - 2
    ensures r.Success? && r.value.command.ExpectsOneByte() ==> |r.value.payload| == 1
    ensures r.Success? && r.value.command == ExitKissMode ==> r.value.payload == []
    ensures r.Success? ==> r.value.payload == Unescape(EscapedBody(frame))
  {
    if |frame| < 3 then Failure(KissFrameTooShort)
    else if frame[0] != FEND then Failure(KissMissingLeadingFend)
    else
      var command := CommandOf(frame[1]);
      var escaped := EscapedBody(frame);
      assert frame == [frame[0]] + frame[1..];
      assert StripFends(frame) == StripFends(frame[1..]);
      if command.ExpectsOneByte() && |escaped| != 1 then Failure(KissArityMismatch(1, |escaped|))
      else if command == ExitKissMode && |escaped| != 0 then Failure(KissArityMismatch(0, |escaped|))
      else
        assert command.ExpectsOneByte() ==> escaped == [escaped[0]];
        Success(KissFrame(Unescape(escaped), PortOf(frame[1]), command))
  }

  /** When `Kiss` followed by `Unkiss` gives back what was framed: the second
      byte must not be FEND itself (port 12 with DataFrame), the command must
      fit the low nibble without reading as ExitKissMode, ExitKissMode only
      on port 15 with no payload, and a one-byte command only with a single
      byte that needs no escaping. */
  predicate RoundTrips(raw: seq<byte>, port: nat, command: CommandCode) {
    && port <= 15
    && command.Valid()
    && (command == ExitKissMode ==> port == 15 && raw == [])
    && (command != ExitKissMode ==>
          command.Value() < 16
          && !(port == 15 && command.Value() == 0x0F)
          && !(port == 12 && command.Value() == 0x00))
    && (command.ExpectsOneByte() ==> |raw| == 1 && raw[0] != FEND && raw[0] != FESC)
  }

  /** A FEND-free body between two FENDs comes out of `StripFends` whole. */
  lemma StripFramed(second: byte, body: seq<byte>)
    requires second != FEND && FEND !in body
    ensures StripFends([FEND, second] + body + [FEND]) == [second] + body
  {
    var framed := [FEND, second] + body + [FEND];
    assert framed == [FEND] + [second] + body + [FEND];
    StripFendsAppend([FEND] + [second] + body, [FEND]);
    StripFendsAppend([FEND] + [second], body);
    StripFendsAppend([FEND], [second]);
  }

  /** Decoding a KISS frame gives back the payload, port and command it was
      built from, under the conditions of `RoundTrips`. */
  lemma UnkissKiss(raw: seq<byte>, port: nat, command: CommandCode)
    requires RoundTrips(raw, port, command)
    ensures Kiss(raw, port, command).Success?
    ensures Unkiss(Kiss(raw, port, command).value) == Success(KissFrame(raw, port, command))
  {
    var second := SecondByte(port, command);
    var body := Escape(raw);
    var framed := Kiss(raw, port, command).value;
    assert framed == [FEND, second] + body + [FEND];
    if command != ExitKissMode {
      SecondByteSplits(port, command);
      FromValueOfValue(command);
    }
    assert second != FEND;
    assert CommandOf(second) == command;
    StripFramed(second, body);
    assert EscapedBody(framed) == body;
    UnescapeEscape(raw);
  }

  /** Port 12 with DataFrame packs to FEND, which `Unkiss` drops together with
      the framing bytes; the first payload byte is then skipped in its place. */
  lemma Port12DataFrameLosesFirstByte()
    ensures Unkiss(Kiss([0x41, 0x42], 12, DataFrame).value)
         == Success(KissFrame([0x42], 12, DataFrame))
  {
    var framed := Kiss([0x41, 0x42], 12, DataFrame).value;
    assert SecondByte(12, DataFrame) == FEND;
    assert framed == [FEND, FEND, 0x41, 0x42, FEND];
    Port12Strip();
    assert EscapedBody(framed) == [0x42];
  }

  lemma Port12Strip()
    ensures StripFends([FEND, FEND, 0x41, 0x42, FEND]) == [0x41, 0x42]
  {
    StripFramed(0x41, [0x42]);
    assert [FEND, FEND, 0x41, 0x42, FEND] == [FEND] + ([FEND, 0x41] + [0x42] + [FEND]);
    StripFendsAppend([FEND], [FEND, 0x41] + [0x42] + [FEND]);
  }

  /** ExitKissMode packs to 0xFF on every port, so it always decodes as port 15. */
  lemma ExitKissModeDecodesOnPort15(port: nat)
    requires port <= 15
    ensures Unkiss(Kiss([], port, ExitKissMode).value) == Success(KissFrame([], 15, ExitKissMode))
  {
    var framed := Kiss([], port, ExitKissMode).value;
    assert framed == [FEND, 0xFF] + [] + [FEND];
    StripFramed(0xFF, []);
  }

  /** `Unkiss` looks at nothing but the length, the first two bytes and the
      still-escaped body. */
  lemma UnkissDeterminedByBody(f: seq<byte>, g: seq<byte>)
    requires |f| >= 3 && |g| >= 3 && f[0] == g[0] && f[1] == g[1]
    requires EscapedBody(f) == EscapedBody(g)
    ensures Unkiss(f) == Unkiss(g)
  {
  }

  /** A FEND inserted anywhere after the second byte changes nothing, so the
      closing FEND is optional. */
  lemma UnkissIgnoresInsertedFend(frame: seq<byte>, k: nat)
    requires |frame| >= 3 && 2 <= k <= |frame|
    ensures Unkiss(frame[..k] + [FEND] + frame[k..]) == Unkiss(frame)
  {
    var front, back := frame[..k], frame[k..];
    var longer := front + [FEND] + back;
    assert frame == front + back;
    assert longer[0] == front[0] == frame[0] && longer[1] == front[1] == frame[1];
    StripFendsAppend(front + [FEND], back);
    StripFendsAppend(front, [FEND]);
    StripFendsAppend(front, back);
    assert StripFends([FEND]) == [];
    assert StripFends(front + [FEND]) == StripFends(front);
    assert StripFends(longer) == StripFends(front) + StripFends(back);
    UnkissDeterminedByBody(longer, frame);
  }

  /** On a frame whose body holds no FEND, `Unkiss` checks the arity on the
      body and unescapes it. */
  lemma UnkissFramed(second: byte, body: seq<byte>)
    requires second != FEND && FEND !in body
    ensures var r := Unkiss([FEND, second] + body + [FEND]);
      && (r.Success? <==> ArityOk(CommandOf(second), |body|))
      && (r.Success? ==> r.value == KissFrame(Unescape(body), PortOf(second), CommandOf(second)))
  {
    StripFramed(second, body);
    assert EscapedBody([FEND, second] + body + [FEND]) == body;
  }

  /** A decoding example of the KISS test suite: plain text on port 0. */
  lemma UnkissExampleText()
    ensures Unkiss([0xC0, 0x00, 0x54, 0x45, 0x53, 0x54, 0xC0])
         == Success(KissFrame([0x54, 0x45, 0x53, 0x54], 0, DataFrame))
  {
    assert [0xC0, 0x00, 0x54, 0x45, 0x53, 0x54, 0xC0] == [FEND, 0x00] + [0x54, 0x45, 0x53, 0x54] + [FEND];
    UnkissFramed(0x00, [0x54, 0x45, 0x53, 0x54]);
    assert CommandOf(0x00) == DataFrame && PortOf(0x00) == 0;
    assert Unescape([0x54, 0x45, 0x53, 0x54]) == [0x54, 0x45, 0x53, 0x54];
  }

  /** A decoding example of the KISS test suite: both escaped sentinels. */
  lemma UnkissExampleEscaped()
    ensures Unkiss([0xC0, 0x00, 0xDB, 0xDC, 0xDB, 0xDD, 0xC0])
         == Success(KissFrame([0xC0, 0xDB], 0, DataFrame))
  {
    var stuffed: seq<byte> := [0xDB, 0xDC, 0xDB, 0xDD];
    assert [0xC0, 0x00, 0xDB, 0xDC, 0xDB, 0xDD, 0xC0] == [FEND, 0x00] + stuffed + [FEND];
    UnkissFramed(0x00, stuffed);
    assert CommandOf(0x00) == DataFrame && PortOf(0x00) == 0;
    UnescapeBothSentinels();
  }

  /** Both escape sequences in a row unstuff to the two sentinels. */
  lemma UnescapeBothSentinels()
    ensures Unescape([0xDB, 0xDC, 0xDB, 0xDD]) == [0xC0, 0xDB]
  {
    var stuffed: seq<byte> := [0xDB, 0xDC, 0xDB, 0xDD];
    assert stuffed[2..] == [0xDB, 0xDD] && [0xDB, 0xDD][2..] == [];
    assert Unescape([0xDB, 0xDD]) == [0xDB] + Unescape([]);
    assert Unescape(stuffed) == [0xC0] + Unescape([0xDB, 0xDD]);
  }

  /** Decoding examples of the KISS test suite: commands whose arity is
      met. */
  lemma UnkissExamplesArity()
    ensures Unkiss([0xC0, 0x01, 99, 0xC0]) == Success(KissFrame([99], 0, TxDelay))
    ensures Unkiss([0xC0, 0xFF, 0xC0]) == Success(KissFrame([], 15, ExitKissMode))
    ensures Unkiss([0xC0, 0x06, 0x00, 0xC0]).Success?
  {
    assert [0xC0, 0x01, 99, 0xC0] == [FEND, 0x01] + [99] + [FEND];
    UnkissFramed(0x01, [99]);
    assert [0xC0, 0xFF, 0xC0] == [FEND, 0xFF] + [] + [FEND];
    UnkissFramed(0xFF, []);
    assert [0xC0, 0x06, 0x00, 0xC0] == [FEND, 0x06] + [0x00] + [FEND];
    UnkissFramed(0x06, [0x00]);
  }

  /** Decoding examples of the KISS test suite: a byte too many for
      "exit KISS mode" and for "persistence". */
  lemma UnkissExamplesArityMismatch()
    ensures Unkiss([0xC0, 0xFF, 0x00, 0xC0]).Failure?
    ensures Unkiss([0xC0, 0x02, 0x00, 0x01, 0xC0]).Failure?
  {
    assert [0xC0, 0xFF, 0x00, 0xC0] == [FEND, 0xFF] + [0x00] + [FEND];
    UnkissFramed(0xFF, [0x00]);
    assert [0xC0, 0x02, 0x00, 0x01, 0xC0] == [FEND, 0x02] + [0x00, 0x01] + [FEND];
    UnkissFramed(0x02, [0x00, 0x01]);
  }

  /** The encoding examples of the KISS test suite: plain text on port 0. */
  lemma KissExampleText()
    ensures Kiss([0x54, 0x45, 0x53, 0x54], 0, DataFrame) == Success([0xC0, 0x00, 0x54, 0x45, 0x53, 0x54, 0xC0])
  {
    var test: seq<byte> := [0x54, 0x45, 0x53, 0x54];
    assert Escape(test) == test;
    assert SecondByte(0, DataFrame) == 0x00;
    assert [FEND, 0x00] + test + [FEND] == [0xC0, 0x00, 0x54, 0x45, 0x53, 0x54, 0xC0];
  }

  /** The encoding examples of the KISS test suite: both sentinels escaped. */
  lemma KissExampleSentinels()
    ensures Kiss([0xC0, 0xDB], 0, DataFrame) == Success([0xC0, 0x00, 0xDB, 0xDC, 0xDB, 0xDD, 0xC0])
  {
    var pair: seq<byte> := [0xC0, 0xDB];
    assert pair[1..] == [0xDB] && [0xDB][1..] == [];
    assert Escape([0xDB]) == [0xDB, 0xDD] + Escape([]);
    assert Escape(pair) == [0xDB, 0xDC] + Escape([0xDB]);
    assert Escape(pair) == [0xDB, 0xDC, 0xDB, 0xDD];
    assert SecondByte(0, DataFrame) == 0x00;
    assert Kiss(pair, 0, DataFrame) == Success([FEND, 0x00] + Escape(pair) + [FEND]);
    assert [FEND, 0x00] + [0xDB, 0xDC, 0xDB, 0xDD] + [FEND] == [0xC0, 0x00, 0xDB, 0xDC, 0xDB, 0xDD, 0xC0];
  }

  /** The encoding examples of the KISS test suite: TxDelay on port 6, and
      a port out of range. */
  lemma KissExampleTxDelay()
    ensures Kiss([50], 6, TxDelay) == Success([0xC0, 0x61, 50, 0xC0])
    ensures Kiss([], 16, DataFrame).Failure?
  {
    assert Escape([50]) == [50];
    assert SecondByte(6, TxDelay) == 0x61;
    assert [FEND, 0x61] + [50] + [FEND] == [0xC0, 0x61, 50, 0xC0];
  }
}
