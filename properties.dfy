/** What the sender and the receiver of checksum.py guarantee together:
    the round trip, the receiver's verdict, detection of a changed
    character, and the shape of both traces. */
module ChecksumProperties {
  import opened Encoding
  import opened OnesComplement
  import opened Trace
  import opened Checksum

  /** The sender fails exactly on non-ASCII text, with the encoder's error;
      otherwise its checksum is 0xFFFF minus the folded total of the words. */
  lemma SenderChecksum(text: string)
    ensures SenderSpec(text).Err? <==> !IsAscii(text)
    ensures SenderSpec(text).Err? ==> SenderSpec(text).error == Encode(text).error
    ensures SenderSpec(text).Ok? ==>
      var ws := TextWords(Encode(text).value);
      && SenderSpec(text).value.checksum == AllOnes - Fold(ws)
      && 0 <= SenderSpec(text).value.checksum <= AllOnes
  {
    if IsAscii(text) {
      SenderSpecOk(text, Encode(text).value);
    }
  }

  /** The receiver's verdict is "final sum is all ones". With a 16-bit
      checksum the final sum stays in 16 bits, and the packet is accepted
      exactly when the checksum is 0xFFFF minus the data sum, or when data
      sum and checksum are both 0xFFFF. */
  lemma ReceiverVerdict(text: string, received: int)
    requires IsAscii(text)
    ensures ReceiverSpec(text, received).Ok?
    ensures var v := ReceiverSpec(text, received).value;
      v.isValid <==> v.finalSum == AllOnes
    ensures 0 <= received <= AllOnes ==>
      var v := ReceiverSpec(text, received).value;
      var t := Fold(TextWords(Encode(text).value));
      && 0 <= v.finalSum <= AllOnes
      && (v.isValid <==> received == AllOnes - t || (t == AllOnes && received == AllOnes))
  {
    if 0 <= received <= AllOnes {
      AllOnesIff(Fold(TextWords(Encode(text).value)), received);
    }
  }

  /** The receiver re-derives the words on its own and folds them to the same
      total the sender inverted. */
  lemma ReceiverRederivesSenderSum(text: string, received: int)
    requires IsAscii(text)
    ensures SenderSpec(text).Ok? && ReceiverSpec(text, received).Ok?
    ensures SenderSpec(text).value.steps[3].content[0] == FinalSum(Fold(TextWords(Encode(text).value)))
    ensures ReceiverSpec(text, received).value.steps[2].content[0] == DataSum(Fold(TextWords(Encode(text).value)))
  {
  }

  /** The fundamental theorem of the checksum: the receiver, given the text
      and the checksum the sender computed for it, ends at all ones with no
      final carry, and reports VALID. */
  lemma RoundTrip(text: string)
    requires IsAscii(text)
    ensures SenderSpec(text).Ok?
    ensures var c := SenderSpec(text).value.checksum;
      && ReceiverSpec(text, c).Ok?
      && ReceiverSpec(text, c).value.isValid
      && ReceiverSpec(text, c).value.finalSum == AllOnes
      && CarryWrapped !in ReceiverSpec(text, c).value.steps[2].content
      && ReceiverSpec(text, c).value.steps[3].content == [Valid]
  {
    var bytes := Encode(text).value;
    var t := Fold(TextWords(bytes));
    SenderSpecOk(text, bytes);
    ComplementCompletes(t);
    var c := SenderSpec(text).value.checksum;
    ReceiverSpecOk(text, c, bytes);
  }

  /** Changing one character of an ASCII text (to another ASCII character)
      always makes the receiver reject the checksum of the original: the
      changed word shifts the sum by less than 0xFFFF. */
  lemma SingleCharacterChangeDetected(text: string, altered: string, i: nat)
    requires IsAscii(text) && IsAscii(altered)
    requires |altered| == |text| && i < |text|
    requires altered[i] != text[i]
    requires forall j :: 0 <= j < |text| && j != i ==> altered[j] == text[j]
    ensures SenderSpec(text).Ok?
    ensures ReceiverSpec(altered, SenderSpec(text).value.checksum).Ok?
    ensures !ReceiverSpec(altered, SenderSpec(text).value.checksum).value.isValid
  {
    var bytes, bytes' := Encode(text).value, Encode(altered).value;
    var ws, ws' := TextWords(bytes), TextWords(bytes');
    PaddedBytesDifferAt(text, altered, i);
    WordsDifferAt(Pad(bytes), Pad(bytes'), i);
    AsciiWordsBelowAllOnes(text);
    AsciiWordsBelowAllOnes(altered);
    ChangedWordRejected(ws, i / 2, ws'[i / 2]);
    SenderSpecOk(text, bytes);
    ReceiverSpecOk(altered, SenderSpec(text).value.checksum, bytes');
  }

  /** Texts that differ in character i have padded encodings that differ in
      byte i only. */
  lemma PaddedBytesDifferAt(text: string, altered: string, i: nat)
    requires IsAscii(text) && IsAscii(altered)
    requires |altered| == |text| && i < |text|
    requires altered[i] != text[i]
    requires forall j :: 0 <= j < |text| && j != i ==> altered[j] == text[j]
    ensures var p, p' := Pad(Encode(text).value), Pad(Encode(altered).value);
      && |p'| == |p| && i < |p| && p'[i] != p[i]
      && forall j :: 0 <= j < |p| && j != i ==> p'[j] == p[j]
  {
    var bytes, bytes' := Encode(text).value, Encode(altered).value;
    var p, p' := Pad(bytes), Pad(bytes');
    forall j | 0 <= j < |p| && j != i
      ensures p'[j] == p[j]
    {
      if j < |bytes| {
        assert p[j] == bytes[j] && p'[j] == bytes'[j];
      }
    }
    assert p[i] == bytes[i] && p'[i] == bytes'[i];
  }

  /** The sender's trace: four sections in fixed order; step 1 shows the
      bytes before padding; step 2 has one line per word; step 3 has four
      lines per word plus one "[CARRY WRAP]" line per carry wrap, or the
      single "No words to sum." line; step 4 has three lines. */
  lemma SenderTraceShape(text: string)
    requires IsAscii(text)
    ensures SenderSpec(text).Ok?
    ensures var steps := SenderSpec(text).value.steps;
      var bytes := Encode(text).value;
      var ws := TextWords(bytes);
      && |steps| == 4
      && steps[0].title == SenderTitle1 && steps[1].title == SegmentTitle
      && steps[2].title == SenderTitle3 && steps[3].title == SenderTitle4
      && steps[0].content == [InputEcho(text), BinaryStream(bytes)]
      && |steps[1].content| == |ws| == (|text| + 1) / 2
      && |steps[2].content| == (if ws == [] then 1 else 4 * |ws| + Wraps(ws))
      && CarryWrapCount(steps[2].content) == Wraps(ws)
      && |steps[3].content| == 3
  {
  }

  /** The receiver's trace: four sections in fixed order; step 2 has one line
      per word; step 3 has three lines, four when the last addition wraps;
      step 4 has exactly one line. */
  lemma ReceiverTraceShape(text: string, received: int)
    requires IsAscii(text)
    ensures ReceiverSpec(text, received).Ok?
    ensures var steps := ReceiverSpec(text, received).value.steps;
      var ws := TextWords(Encode(text).value);
      && |steps| == 4
      && steps[0].title == ReceiverTitle1 && steps[1].title == SegmentTitle
      && steps[2].title == ReceiverTitle3 && steps[3].title == ReceiverTitle4
      && |steps[1].content| == |ws|
      && |steps[2].content| == (if Fold(ws) + received > AllOnes then 4 else 3)
      && |steps[3].content| == 1
  {
  }

  /** The empty payload: no words, total 0, checksum 0xFFFF, a summation step
      that says only "No words to sum.", and a receiver that accepts it. */
  lemma EmptyPayload()
    ensures SenderSpec("").Ok? && SenderSpec("").value.checksum == 0xFFFF
    ensures SenderSpec("").value.steps[2].content == [NoWords]
    ensures ReceiverSpec("", 0xFFFF).Ok? && ReceiverSpec("", 0xFFFF).value.isValid
  {
    assert Encode("") == Ok([]);
    assert Words(Pad([])) == [];
  }

  /** "A" is padded to the word 0x4100, whose complement is 0xBEFF. */
  lemma OddLengthPadding()
    ensures Encode("A") == Ok([0x41])
    ensures TextWords([0x41]) == [0x4100]
    ensures SenderSpec("A").Ok? && SenderSpec("A").value.checksum == 0xBEFF
  {
    assert Encode("") == Ok([]);
    assert "A"[1..] == "" && IsAsciiChar("A"[0]);
    assert Encode("A") == Ok(["A"[0] as int] + []);
    assert ["A"[0] as int] + [] == [0x41];
    assert Pad([0x41]) == [0x41, 0];
    assert Words([0x41, 0]) == [0x4100];
    assert Fold([0x4100]) == 0x4100 by {
      assert [0x4100][..0] == [];
    }
  }

  /** 0xFFFF + 0x0001 overflows to 0x10000 and wraps to 0x0001. */
  lemma CarryWrapExample()
    ensures Fold([0xFFFF, 0x0001]) == 0x0001
    ensures Wraps([0xFFFF, 0x0001]) == 1
  {
    assert [0xFFFF, 0x0001][..1] == [0xFFFF];
    assert [0xFFFF][..0] == [];
  }

  /** The caller passes the parsed checksum unchecked. A value wider than 16
      bits can then be accepted (0x1FFFE for the empty payload), and the final
      sum can leave 16 bits (0x10000). */
  lemma OutOfRangeChecksum()
    ensures ReceiverSpec("", 0x1FFFE).Ok? && ReceiverSpec("", 0x1FFFE).value.isValid
    ensures ReceiverSpec("", 0x1FFFF).Ok? && ReceiverSpec("", 0x1FFFF).value.finalSum == 0x10000
  {
    assert Encode("") == Ok([]);
    assert Words(Pad([])) == [];
  }
}
