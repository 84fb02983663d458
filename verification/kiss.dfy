/** The second copy of the KISS decoder that the listener calls
    (NAx25/Kiss.cs). Its nested `CommandCode` enum is the same as
    `KissCommandCode`, so `KissFraming.CommandCode` stands for both. The
    unescaping here is the index-stepping loop of the source. */
module Kiss {
  import opened Bytes
  import opened Results
  import opened KissFraming

  /** One step of the scan at index `i`, with the source's stand-in of 0 for
      the byte after the last. */
  lemma UnescapeAt(e: seq<byte>, i: nat)
    requires i < |e|
    ensures var next: byte := if i == |e| - 1 then 0 else e[i + 1];
      if e[i] == FESC && next == TFEND then
        i + 2 <= |e| && Unescape(e[i..]) == [FEND] + Unescape(e[i + 2..])
      else if e[i] == FESC && next == TFESC then
        i + 2 <= |e| && Unescape(e[i..]) == [FESC] + Unescape(e[i + 2..])
      else
        Unescape(e[i..]) == [e[i]] + Unescape(e[i + 1..])
  {
    var rest := e[i..];
    assert rest[0] == e[i];
    if i + 1 < |e| {
      assert rest[1] == e[i + 1];
      assert rest[2..] == e[i + 2..];
    }
    assert rest[1..] == e[i + 1..];
  }

  /** Appending one step's output keeps the loop's account of what is left. */
  lemma Advance(e: seq<byte>, data: seq<byte>, i: nat, j: nat, out: seq<byte>)
    requires i <= j <= |e|
    requires data + Unescape(e[i..]) == Unescape(e)
    requires Unescape(e[i..]) == out + Unescape(e[j..])
    ensures (data + out) + Unescape(e[j..]) == Unescape(e)
  {
    assert (data + out) + Unescape(e[j..]) == data + (out + Unescape(e[j..]));
  }

  /** The `for` loop of `Kiss.Unkiss`, which steps over the second byte of
      each escape pair by bumping its index; it computes `Unescape`. */
  method UnescapeLoop(escapedBytes: seq<byte>) returns (data: seq<byte>)
    ensures data == Unescape(escapedBytes)
  {
    data := [];
    var i := 0;
    while i < |escapedBytes|
      invariant 0 <= i <= |escapedBytes|
      invariant data + Unescape(escapedBytes[i..]) == Unescape(escapedBytes)
    {
      var thisByte := escapedBytes[i];
      var nextByte: byte := if i == |escapedBytes| - 1 then 0 else escapedBytes[i + 1];
      UnescapeAt(escapedBytes, i);
      if thisByte == FESC && nextByte == TFEND {
        Advance(escapedBytes, data, i, i + 2, [FEND]);
        data := data + [FEND];
        i := i + 2;
      } else if thisByte == FESC && nextByte == TFESC {
        Advance(escapedBytes, data, i, i + 2, [FESC]);
        data := data + [FESC];
        i := i + 2;
      } else {
        Advance(escapedBytes, data, i, i + 1, [thisByte]);
        data := data + [thisByte];
        i := i + 1;
      }
    }
    assert escapedBytes[i..] == [];
  }

  /** `Kiss.Unkiss`: the same checks and the same unescaping as
      `KissFraming.Unkiss`, with the same result on every input. */
  method Unkiss(kissFrame: seq<byte>) returns (r: Result<KissFrame>)
    ensures r == KissFraming.Unkiss(kissFrame)
  {
    if |kissFrame| < 3 {
      return Failure(KissFrameTooShort);
    }
    if kissFrame[0] != FEND {
      return Failure(KissMissingLeadingFend);
    }

    var portIndex := PortOf(kissFrame[1]);
    var commandCode := CommandOf(kissFrame[1]);
    var escapedBytes := EscapedBody(kissFrame);

    if commandCode.ExpectsOneByte() {
      if |escapedBytes| != 1 {
        return Failure(KissArityMismatch(1, |escapedBytes|));
      }
    } else if commandCode == ExitKissMode {
      if |escapedBytes| != 0 {
        return Failure(KissArityMismatch(0, |escapedBytes|));
      }
    }

    var data := UnescapeLoop(escapedBytes);
    return Success(KissFrame(data, portIndex, commandCode));
  }
}
