/** The two engine calls of checksum.py: the sender computes a checksum,
    the receiver re-derives the words and checks data plus checksum. Each
    is a method with the source's loops, proved equal to a specification
    function over the inputs. */
module Checksum {
  import opened Encoding
  import opened OnesComplement
  import opened Trace

  /** What `calculate_checksum` returns: the checksum and its trace. */
  datatype Checksummed = Checksummed(checksum: int, steps: seq<TraceStep>)

  /** What `calculate_receiver_checksum` returns. */
  datatype Verification = Verification(isValid: bool, finalSum: int, steps: seq<TraceStep>)

  /** The sender's result as a function of the text. */
  function SenderSpec(text: string): (r: Result<Checksummed>)
    ensures r.Ok? <==> IsAscii(text)
    ensures r.Err? ==> r.error == Encode(text).error
    ensures r.Ok? ==>
      && |r.value.steps| == 4
      && r.value.checksum == AllOnes - Fold(TextWords(Encode(text).value))
  {
    match Encode(text)
    case Err(e) => Err(e)
    case Ok(bytes) =>
      var padded := Pad(bytes);
      var ws := Words(padded);
      var total := Fold(ws);
      var checksum := Complement16(total);
      Ok(Checksummed(checksum, [
        TraceStep(SenderTitle1, [InputEcho(text), BinaryStream(bytes)]),
        TraceStep(SegmentTitle, SegmentLines(padded)),
        TraceStep(SenderTitle3, SenderStep3(ws)),
        TraceStep(SenderTitle4, [FinalSum(total), InvertedBits(checksum), ChecksumValue(checksum)])
      ]))
  }

  /** The receiver's result as a function of the text and the checksum the
      caller parsed (any integer: the caller does not range-check it). */
  function ReceiverSpec(text: string, received: int): (r: Result<Verification>)
    ensures r.Ok? <==> IsAscii(text)
    ensures r.Err? ==> r.error == Encode(text).error
    ensures r.Ok? ==>
      && |r.value.steps| == 4
      && r.value.finalSum == CarryAdd(Fold(TextWords(Encode(text).value)), received)
      && (r.value.isValid <==> r.value.finalSum == AllOnes)
  {
    match Encode(text)
    case Err(e) => Err(e)
    case Ok(bytes) =>
      var ws := Words(Pad(bytes));
      var dataSum := Fold(ws);
      var finalSum := CarryAdd(dataSum, received);
      var isValid := finalSum == AllOnes;
      Ok(Verification(isValid, finalSum, [
        TraceStep(ReceiverTitle1, [ReceivedData(text), ReceivedBinary(bytes)]),
        TraceStep(SegmentTitle, ReceivedWordLines(ws)),
        TraceStep(ReceiverTitle3, ReceiverStep3(dataSum, received)),
        TraceStep(ReceiverTitle4, [if isValid then Valid else Mismatch(finalSum)])
      ]))
  }

  /** `calculate_checksum`: encode, pad, segment, fold with end-around carry,
      invert, logging each stage. */
  method CalculateChecksum(data: string) returns (r: Result<Checksummed>)
    ensures r == SenderSpec(data)
  {
    var enc := Encode(data);
    if enc.Err? {
      return Err(enc.error);
    }
    var encoded := enc.value;
    var step1 := TraceStep(SenderTitle1, [InputEcho(data), BinaryStream(encoded)]);

    if |encoded| % 2 != 0 {
      encoded := encoded + [0];
    }
    assert encoded == Pad(enc.value);

    var words, step2Lines := SegmentLogged(encoded);
    var step2 := TraceStep(SegmentTitle, step2Lines);

    var total, step3Lines := SumLogged(words);
    var step3 := TraceStep(SenderTitle3, step3Lines);

    var checksum := Complement16(total);
    var step4 := TraceStep(SenderTitle4, [FinalSum(total), InvertedBits(checksum), ChecksumValue(checksum)]);
    r := Ok(Checksummed(checksum, [step1, step2, step3, step4]));
    SenderSpecOk(data, enc.value);
  }

  /** SenderSpec on encodable text, spelled out stage by stage. */
  lemma SenderSpecOk(text: string, bytes: seq<byte>)
    requires Encode(text) == Ok(bytes)
    ensures var ws := Words(Pad(bytes));
            var total := Fold(ws);
            var checksum := Complement16(total);
            SenderSpec(text) == Ok(Checksummed(checksum,
              [TraceStep(SenderTitle1, [InputEcho(text), BinaryStream(bytes)]),
               TraceStep(SegmentTitle, SegmentLines(Pad(bytes))),
               TraceStep(SenderTitle3, SenderStep3(ws)),
               TraceStep(SenderTitle4, [FinalSum(total), InvertedBits(checksum), ChecksumValue(checksum)])]))
  {
  }

  /** The sender's segmentation loop: pair the padded bytes into words and
      log each word with its two bytes. */
  method SegmentLogged(encoded: seq<byte>) returns (words: seq<word>, lines: seq<Line>)
    requires |encoded| % 2 == 0
    ensures words == Words(encoded)
    ensures lines == SegmentLines(encoded)
  {
    words, lines := [], [];
    var i := 0;
    while i < |encoded|
      invariant 0 <= i <= |encoded| && i % 2 == 0
      invariant words == Words(encoded[..i])
      invariant lines == SegmentLines(encoded[..i])
    {
      var w := WordOf(encoded[i], encoded[i + 1]);
      words := words + [w];
      lines := lines + [SegmentedWord(i / 2 + 1, encoded[i], encoded[i + 1], w)];
      assert encoded[..i + 2][..i] == encoded[..i];
      i := i + 2;
    }
    assert encoded[..i] == encoded;
  }

  /** The sender's summation loop: fold the words with end-around carry,
      logging every addition and every wrap. */
  method SumLogged(words: seq<word>) returns (total: word, lines: seq<Line>)
    ensures total == Fold(words)
    ensures lines == SenderStep3(words)
  {
    total, lines := 0, [];
    if words == [] {
      lines := lines + [NoWords];
    }
    var j := 0;
    while j < |words|
      invariant 0 <= j <= |words|
      invariant total == Fold(words[..j])
      invariant words == [] ==> lines == [NoWords]
      invariant words != [] ==> lines == SumLines(words[..j])
    {
      var sum, added := AddLogged(j + 1, total, words[j]);
      SumLinesExtend(words, j);
      lines := lines + added;
      total := sum;
      j := j + 1;
    }
    assert words[..j] == words;
  }

  /** One iteration of the sender's summation loop: add word number
      `number` to the running total, wrap on a carry out of bit 16, and log
      the addition. */
  method AddLogged(number: nat, total: word, w: word) returns (sum: word, added: seq<Line>)
    ensures sum == CarryAdd(total, w)
    ensures added == AddLines(number, total, w)
  {
    var s := total + w;
    added := [AddWord(number, w), SumSoFar(total), NextWord(w), Intermediate(s)];
    if s > AllOnes {
      s := Mask16(s) + 1;
      added := added + [CarryWrap(s)];
    }
    sum := s;
  }

  /** `calculate_receiver_checksum`: re-derive and fold the data words, add
      the received checksum with one more end-around carry, and accept
      exactly when the result is all ones. */
  method CalculateReceiverChecksum(data: string, receivedChecksum: int) returns (r: Result<Verification>)
    ensures r == ReceiverSpec(data, receivedChecksum)
  {
    var enc := Encode(data);
    if enc.Err? {
      return Err(enc.error);
    }
    var encoded := enc.value;
    var step1 := TraceStep(ReceiverTitle1, [ReceivedData(data), ReceivedBinary(encoded)]);

    if |encoded| % 2 != 0 {
      encoded := encoded + [0];
    }
    assert encoded == Pad(enc.value);

    var words, step2Lines := SegmentNumbered(encoded);
    var step2 := TraceStep(SegmentTitle, step2Lines);

    var total := SumData(words);
    var finalTotal, step3Lines := AddChecksumLogged(total, receivedChecksum);
    var step3 := TraceStep(ReceiverTitle3, step3Lines);

    var isValid := finalTotal == AllOnes;
    var step4Lines: seq<Line>;
    if isValid {
      step4Lines := [Valid];
    } else {
      step4Lines := [Mismatch(finalTotal)];
    }
    var step4 := TraceStep(ReceiverTitle4, step4Lines);
    r := Ok(Verification(isValid, finalTotal, [step1, step2, step3, step4]));
    ReceiverSpecOk(data, receivedChecksum, enc.value);
  }

  /** ReceiverSpec on encodable text, spelled out stage by stage. */
  lemma ReceiverSpecOk(text: string, received: int, bytes: seq<byte>)
    requires Encode(text) == Ok(bytes)
    ensures var ws := Words(Pad(bytes));
            var finalSum := CarryAdd(Fold(ws), received);
            ReceiverSpec(text, received) == Ok(Verification(finalSum == AllOnes, finalSum,
              [TraceStep(ReceiverTitle1, [ReceivedData(text), ReceivedBinary(bytes)]),
               TraceStep(SegmentTitle, ReceivedWordLines(ws)),
               TraceStep(ReceiverTitle3, ReceiverStep3(Fold(ws), received)),
               TraceStep(ReceiverTitle4, [if finalSum == AllOnes then Valid else Mismatch(finalSum)])]))
  {
  }

  /** The receiver's last addition: the received checksum onto the data
      sum, with one end-around carry when the sum exceeds 0xFFFF, logged. */
  method AddChecksumLogged(dataSum: word, received: int) returns (total: int, lines: seq<Line>)
    ensures total == CarryAdd(dataSum, received)
    ensures lines == ReceiverStep3(dataSum, received)
  {
    lines := [DataSum(dataSum), AddReceived(received)];
    total := dataSum + received;
    if total > AllOnes {
      total := Mask16(total) + 1;
      lines := lines + [CarryWrapped];
    }
    lines := lines + [FinalTotal(total)];
  }

  /** The receiver's segmentation loop: pair the padded bytes into words and
      log each word by number. */
  method SegmentNumbered(encoded: seq<byte>) returns (words: seq<word>, lines: seq<Line>)
    requires |encoded| % 2 == 0
    ensures words == Words(encoded)
    ensures lines == ReceivedWordLines(words)
  {
    words, lines := [], [];
    var i := 0;
    while i < |encoded|
      invariant 0 <= i <= |encoded| && i % 2 == 0
      invariant words == Words(encoded[..i])
      invariant lines == ReceivedWordLines(words)
    {
      var w := WordOf(encoded[i], encoded[i + 1]);
      lines := lines + [ReceivedWord(i / 2 + 1, w)];
      ReceivedWordLinesExtend(words, w);
      WordsExtend(encoded, i);
      words := words + [w];
      i := i + 2;
    }
    assert encoded[..i] == encoded;
  }

  lemma WordsExtend(bytes: seq<byte>, i: nat)
    requires i % 2 == 0 && i + 2 <= |bytes|
    ensures |Words(bytes[..i])| == i / 2
    ensures Words(bytes[..i + 2]) == Words(bytes[..i]) + [WordOf(bytes[i], bytes[i + 1])]
  {
    assert bytes[..i + 2][..i] == bytes[..i];
  }

  lemma ReceivedWordLinesExtend(ws: seq<word>, w: word)
    ensures ReceivedWordLines(ws + [w]) == ReceivedWordLines(ws) + [ReceivedWord(|ws| + 1, w)]
  {
    assert (ws + [w])[..|ws|] == ws;
  }

  /** The receiver's data-word loop: the same end-around-carry fold, with
      no logging. */
  method SumData(words: seq<word>) returns (total: word)
    ensures total == Fold(words)
  {
    total := 0;
    var j := 0;
    while j < |words|
      invariant 0 <= j <= |words|
      invariant total == Fold(words[..j])
    {
      var sum := total + words[j];
      if sum > AllOnes {
        sum := Mask16(sum) + 1;
      }
      total := sum;
      assert words[..j + 1][..j] == words[..j];
      j := j + 1;
    }
    assert words[..j] == words;
  }
}
