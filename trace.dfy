/** The step-by-step derivation both engine calls return for display. A line
    is kept as the values it shows; the exact text rendering (binary and
    hexadecimal formatting) is not modelled. */
module Trace {
  import opened Encoding
  import opened OnesComplement

  datatype Line =
    // sender, step 1
    | InputEcho(text: string)
    | BinaryStream(bytes: seq<byte>)
    // sender, step 2
    | SegmentedWord(number: nat, hi: byte, lo: byte, w: word)
    // sender, step 3
    | NoWords
    | AddWord(number: nat, w: word)
    | SumSoFar(total: int)
    | NextWord(w: word)
    | Intermediate(total: int)
    | CarryWrap(total: int)
    // sender, step 4
    | FinalSum(total: int)
    | InvertedBits(checksum: int)
    | ChecksumValue(checksum: int)
    // receiver, step 1
    | ReceivedData(text: string)
    | ReceivedBinary(bytes: seq<byte>)
    // receiver, step 2
    | ReceivedWord(number: nat, w: word)
    // receiver, step 3
    | DataSum(total: int)
    | AddReceived(checksum: int)
    | CarryWrapped
    | FinalTotal(total: int)
    // receiver, step 4
    | Valid
    | Mismatch(total: int)

  /** One titled section of the trace (`{"title": ..., "content": ...}`). */
  datatype TraceStep = TraceStep(title: string, content: seq<Line>)

  const SenderTitle1: string := "Step 1: Data to Binary Conversion"
  const SegmentTitle: string := "Step 2: Binary Word Segmentation"
  const SenderTitle3: string := "Step 3: One's Complement Addition"
  const SenderTitle4: string := "Step 4: One's Complement Operation"
  const ReceiverTitle1: string := "Step 1: Received Data to Binary Conversion"
  const ReceiverTitle3: string := "Step 3: One's Complement Addition (Including Checksum)"
  const ReceiverTitle4: string := "Step 4: Verification Result"

  /** The sender's step 2: one line per word with its two bytes. */
  function SegmentLines(bytes: seq<byte>): (lines: seq<Line>)
    requires |bytes| % 2 == 0
    ensures |lines| == |bytes| / 2
    ensures forall k :: 0 <= k < |lines| ==>
      lines[k] == SegmentedWord(k + 1, bytes[2 * k], bytes[2 * k + 1], Words(bytes)[k])
  {
    if bytes == [] then []
    else
      var n := |bytes| - 2;
      SegmentLines(bytes[..n]) + [SegmentedWord(n / 2 + 1, bytes[n], bytes[n + 1], WordOf(bytes[n], bytes[n + 1]))]
  }

  /** The receiver's step 2: one line per word. */
  function ReceivedWordLines(ws: seq<word>): (lines: seq<Line>)
    ensures |lines| == |ws|
  {
    if ws == [] then []
    else ReceivedWordLines(ws[..|ws| - 1]) + [ReceivedWord(|ws|, ws[|ws| - 1])]
  }

  /** The lines the sender logs for adding word number `number`, w, to the
      running total `prev`: the word, the total so far, the word again and
      their plain sum; then, only when that sum exceeds 0xFFFF, the wrapped
      total. */
  function AddLines(number: nat, prev: word, w: word): (r: seq<Line>)
    ensures |r| == 4 + (if prev + w > AllOnes then 1 else 0)
    ensures r[..4] == [AddWord(number, w), SumSoFar(prev), NextWord(w), Intermediate(prev + w)]
    ensures |r| == 5 ==> r[4] == CarryWrap(CarryAdd(prev, w))
  {
    [AddWord(number, w), SumSoFar(prev), NextWord(w), Intermediate(prev + w)]
      + (if prev + w > AllOnes then [CarryWrap(CarryAdd(prev, w))] else [])
  }

  /** The lines of the sender's summation loop over ws. */
  function SumLines(ws: seq<word>): (lines: seq<Line>)
    ensures |lines| == 4 * |ws| + Wraps(ws)
    ensures ws != [] ==> lines[0] == AddWord(1, ws[0])
  {
    if ws == [] then []
    else
      var n := |ws| - 1;
      SumLines(ws[..n]) + AddLines(n + 1, Fold(ws[..n]), ws[n])
  }

  /** Each iteration of the summation loop appends the lines of word j + 1,
      added to the running fold of the words before it. */
  lemma SumLinesExtend(ws: seq<word>, j: nat)
    requires j < |ws|
    ensures Fold(ws[..j + 1]) == CarryAdd(Fold(ws[..j]), ws[j])
    ensures SumLines(ws[..j + 1]) == SumLines(ws[..j]) + AddLines(j + 1, Fold(ws[..j]), ws[j])
  {
    assert ws[..j + 1][..j] == ws[..j];
  }

  /** How many "[CARRY WRAP]" lines a sequence of lines holds. */
  function CarryWrapCount(lines: seq<Line>): (n: nat)
    ensures n <= |lines|
  {
    if lines == [] then 0
    else CarryWrapCount(lines[..|lines| - 1]) + (if lines[|lines| - 1].CarryWrap? then 1 else 0)
  }

  lemma {:induction false} CarryWrapCountAppend(a: seq<Line>, b: seq<Line>)
    ensures CarryWrapCount(a + b) == CarryWrapCount(a) + CarryWrapCount(b)
  {
    if b == [] {
      assert a + b == a;
    } else {
      var n := |b| - 1;
      assert (a + b)[..|a + b| - 1] == a + b[..n];
      assert (a + b)[|a + b| - 1] == b[n];
      CarryWrapCountAppend(a, b[..n]);
    }
  }

  lemma {:induction false} CarryWrapCountNone(lines: seq<Line>)
    requires forall i :: 0 <= i < |lines| ==> !lines[i].CarryWrap?
    ensures CarryWrapCount(lines) == 0
  {
    if lines != [] {
      CarryWrapCountNone(lines[..|lines| - 1]);
    }
  }

  /** One word's lines hold a carry line exactly when adding it wraps. */
  lemma AddLinesCarryWraps(number: nat, prev: word, w: word)
    ensures CarryWrapCount(AddLines(number, prev, w)) == (if prev + w > AllOnes then 1 else 0)
  {
    var r := AddLines(number, prev, w);
    var head := [AddWord(number, w), SumSoFar(prev), NextWord(w), Intermediate(prev + w)];
    CarryWrapCountNone(head);
    CarryWrapCountAppend(head, r[4..]);
    assert r == head + r[4..];
    if |r| == 5 {
      assert r[4..] == [] + [r[4]];
    }
  }

  /** The extra lines of the summation loop are carry lines, one per wrap of
      the fold: the loop logs exactly Wraps(ws) "[CARRY WRAP]" lines. */
  lemma {:induction false} SumLinesCarryWraps(ws: seq<word>)
    ensures CarryWrapCount(SumLines(ws)) == Wraps(ws)
  {
    if ws != [] {
      var n := |ws| - 1;
      SumLinesCarryWraps(ws[..n]);
      AddLinesCarryWraps(n + 1, Fold(ws[..n]), ws[n]);
      CarryWrapCountAppend(SumLines(ws[..n]), AddLines(n + 1, Fold(ws[..n]), ws[n]));
    }
  }

  /** The sender's step 3: "No words to sum." alone for an empty payload,
      otherwise the lines of the loop. */
  function SenderStep3(ws: seq<word>): (lines: seq<Line>)
    ensures ws == [] ==> lines == [NoWords]
    ensures ws != [] ==> lines == SumLines(ws) && lines[0] == AddWord(1, ws[0])
    ensures CarryWrapCount(lines) == Wraps(ws)
  {
    SumLinesCarryWraps(ws);
    if ws == [] then [NoWords] else SumLines(ws)
  }

  /** The receiver's step 3: the data sum, the checksum added, a carry notice
      when the last addition wraps, and the final total. */
  function ReceiverStep3(dataSum: word, checksum: int): (lines: seq<Line>)
    ensures |lines| == (if dataSum + checksum > AllOnes then 4 else 3)
    ensures CarryWrapped in lines <==> dataSum + checksum > AllOnes
  {
    [DataSum(dataSum), AddReceived(checksum)]
      + (if dataSum + checksum > AllOnes then [CarryWrapped] else [])
      + [FinalTotal(CarryAdd(dataSum, checksum))]
  }
}
