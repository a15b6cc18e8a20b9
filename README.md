# One's-complement checksum engine

A Dafny model of the checksum engine in `checksum.py`, the core of a small
teaching application for the Internet checksum (RFC 1071, section 1).

The sender, `calculate_checksum`, does four things:

- encodes the text as ASCII;
- pads it to an even number of bytes with one zero byte;
- pairs the bytes into big-endian 16-bit words;
- folds the words with end-around carry and inverts the total.

It returns the checksum together with a four-section trace of the derivation.

The receiver, `calculate_receiver_checksum`, re-derives the words and folds
them. It then adds the received checksum with one more end-around carry and
accepts the packet when the result is all ones (0xFFFF). It returns the
verdict, the final sum and its own four-section trace.

The project has five files:

- `encoding.dfy` (module `Encoding`): ASCII encoding with its error, padding,
  segmentation into words and its inverse.
- `ones_complement.dfy` (module `OnesComplement`): the carry-wrapping
  addition, the fold, the inversion, and their relation to plain
  arithmetic modulo 0xFFFF.
- `trace.dfy` (module `Trace`): the trace lines, kept as the values they
  display, and the titles of the sections.
- `checksum.dfy` (module `Checksum`): the two engine calls as methods with
  the source's loops. Each is proved equal to a specification function
  (`SenderSpec`, `ReceiverSpec`).
- `properties.dfy` (module `ChecksumProperties`): what sender and receiver
  guarantee together. This covers the round trip, the receiver's verdict,
  detection of a changed character, the shape of both traces, and worked
  examples.

Python's `x & 0xFFFF` is written `x % 0x1_0000`; the two agree on every
integer, negative ones included. Python's `(~x) & 0xFFFF` is written
`(-x - 1) % 0x1_0000`.

The receiver takes the checksum as any integer, just as the source adds
whatever its caller parsed without a range check. The 16-bit range is a
hypothesis of the lemmas that need it, never a precondition of the engine.

## Model

| member | source | states |
|---|---|---|
| Encoding.Encode | checksum.py:14 | ASCII encoding succeeds exactly on 7-bit text; the bytes are the character codes, one per character; otherwise the error names the first character outside ASCII |
| Encoding.Pad | checksum.py:20-21 | the padded bytes have even length, begin with the original bytes, and gain exactly one zero byte when the length was odd |
| Encoding.Words | checksum.py:26-29 | segmentation yields half as many words as bytes, word k being byte 2k shifted left 8 plus byte 2k+1 |
| Encoding.UnpairWords | checksum.py:27-29 | segmentation loses nothing: splitting each word back into high and low byte recovers the padded bytes |
| Encoding.TextWords | checksum.py:20-29 | a text of n bytes gives ceil(n/2) words |
| Encoding.WordsDifferAt | checksum.py:27-29 | padded byte strings that differ in byte i only have words that differ in word i/2 only |
| Encoding.AsciiWordsBelowAllOnes | checksum.py:14 | every word of an ASCII text (padded) is at most 0x7F7F |
| OnesComplement.CarryAdd | checksum.py:41-48 | one fold step on 16-bit operands stays within 16 bits, subtracts 0xFFFF exactly when the sum exceeds 0xFFFF, and is zero only for two zero operands |
| OnesComplement.Fold | checksum.py:35-48 | the folded total is zero exactly when every word is zero |
| OnesComplement.Wraps | checksum.py:47-49 | the number of carry wraps is at most the number of words |
| OnesComplement.Complement16 | checksum.py:55 | the inversion of a 16-bit total is 0xFFFF minus that total |
| OnesComplement.FoldIsSumLessWraps | checksum.py:39-48 | the folded total is the plain sum of the words less 0xFFFF per carry wrap |
| OnesComplement.FoldCongruentToSum | checksum.py:39-48 | the folded total agrees with the plain sum modulo 0xFFFF |
| OnesComplement.SumUpdate | checksum.py:39-41 | replacing one word changes the plain sum by the difference of the two words |
| OnesComplement.FoldDetectsWordChange | checksum.py:39-48 | replacing a word by a different one less than 0xFFFF away changes the folded total modulo 0xFFFF |
| OnesComplement.ComplementCompletes | checksum.py:55-105 | a total plus its inversion is exactly 0xFFFF, with no carry |
| OnesComplement.ComplementCancelsSum | checksum.py:39-55 | the plain sum of the words plus the checksum is a multiple of 0xFFFF |
| OnesComplement.ResidueMismatchRejected | checksum.py:103-113 | a data total that differs modulo 0xFFFF from the sender's does not complete the sender's checksum to 0xFFFF |
| OnesComplement.ChangedWordRejected | checksum.py:95-113 | a receiver whose words differ from the sender's in one word, by less than 0xFFFF, does not reach 0xFFFF with the sender's checksum |
| OnesComplement.AllOnesIff | checksum.py:103-113 | with a 16-bit checksum the final sum is 0xFFFF exactly when the checksum is 0xFFFF minus the data total, or both are 0xFFFF |
| Trace.SegmentLines | checksum.py:25-31 | the sender's step 2 has one line per word, numbered from 1, carrying its two bytes and the word |
| Trace.ReceivedWordLines | checksum.py:82-88 | the receiver's step 2 has one line per word |
| Trace.AddLines | checksum.py:42-49 | adding one word logs the word, the running total, the word again and their plain sum, then a fifth line with the wrapped total exactly when the sum exceeds 0xFFFF |
| Trace.SumLines | checksum.py:39-49 | the summation loop logs four lines per word plus one per carry wrap, starting with "Add Word 1" of the first word |
| Trace.SumLinesExtend | checksum.py:39-49 | each iteration appends the lines of word j+1, added to the running fold of the words before it, and advances the fold by one carry-add |
| Trace.SumLinesCarryWraps | checksum.py:47-49 | the summation loop logs exactly one "[CARRY WRAP]" line per wrap of the fold |
| Trace.SenderStep3 | checksum.py:34-49 | the sender's step 3 is the single "No words to sum." line for no words, otherwise the loop's lines, and holds one carry line per wrap |
| Trace.ReceiverStep3 | checksum.py:100-108 | the receiver's step 3 has three lines, or four with the "[Carry Wrapped]" line exactly when data sum plus checksum exceeds 0xFFFF |
| Checksum.SenderSpec | checksum.py:1-61 | the sender's result as a function of the text: it fails exactly on non-ASCII text with the encoder's error, and otherwise has four steps and checksum 0xFFFF minus the folded total |
| Checksum.CalculateChecksum | checksum.py:1-61 | the sender returns the encoding error, or the checksum and the four-step trace that SenderSpec defines |
| Checksum.SegmentLogged | checksum.py:24-31 | the sender's segmentation loop builds exactly Words and SegmentLines of the padded bytes |
| Checksum.SumLogged | checksum.py:33-51 | the sender's summation loop ends with the folded total and the step 3 lines, including "No words to sum." for no words |
| Checksum.AddLogged | checksum.py:40-49 | one iteration adds with end-around carry and logs exactly AddLines: four lines, plus the carry line when it wraps |
| Checksum.ReceiverSpec | checksum.py:64-122 | the receiver's result as a function of the text and checksum: it fails exactly on non-ASCII text, and otherwise has four steps, final sum the data fold carry-added to the checksum, and is valid exactly when that is 0xFFFF |
| Checksum.CalculateReceiverChecksum | checksum.py:64-122 | the receiver returns the encoding error, or the verdict, final sum and four-step trace that ReceiverSpec defines |
| Checksum.SegmentNumbered | checksum.py:81-88 | the receiver's segmentation loop builds exactly Words of the padded bytes and one numbered line per word |
| Checksum.SumData | checksum.py:94-98 | the receiver's data loop ends with the same folded total as the sender's |
| Checksum.AddChecksumLogged | checksum.py:100-108 | the receiver's last addition is one carry-wrapping step, logged as ReceiverStep3 |
| ChecksumProperties.SenderChecksum | checksum.py:1-61 | the sender fails exactly on non-ASCII text, with the encoder's error; otherwise the checksum is 16 bits and equals 0xFFFF minus the folded total |
| ChecksumProperties.ReceiverVerdict | checksum.py:103-118 | the verdict is "final sum is 0xFFFF"; with a 16-bit checksum the final sum stays in 16 bits and the verdict is the complement-or-both-0xFFFF characterisation |
| ChecksumProperties.ReceiverRederivesSenderSum | checksum.py:56-100 | the receiver's logged data sum equals the sender's logged final sum for the same text |
| ChecksumProperties.RoundTrip | checksum.py:55-118 | the receiver, given the text and the sender's checksum, reports VALID with final sum 0xFFFF and no carry wrap |
| ChecksumProperties.SingleCharacterChangeDetected | checksum.py:14-113 | changing one character of an ASCII text to another ASCII character makes the receiver reject the original's checksum |
| ChecksumProperties.PaddedBytesDifferAt | checksum.py:14-21 | texts differing in one character have padded encodings differing in that byte only |
| ChecksumProperties.SenderTraceShape | checksum.py:12-59 | the sender's trace has four sections with their titles in order: two echo lines, one line per word (ceil(n/2)), 4 per word plus one "[CARRY WRAP]" line per wrap (or the single "No words to sum."), and three final lines |
| ChecksumProperties.ReceiverTraceShape | checksum.py:71-120 | the receiver's trace has four titled sections in order: one line per word, three or four summation lines, one verdict line |
| ChecksumProperties.EmptyPayload | checksum.py:9-37 | the empty text has checksum 0xFFFF and a summation step of only "No words to sum."; the receiver accepts it with 0xFFFF |
| ChecksumProperties.OddLengthPadding | checksum.py:20-55 | "A" is padded to the word 0x4100 and has checksum 0xBEFF |
| ChecksumProperties.CarryWrapExample | checksum.py:47-48 | 0xFFFF plus 0x0001 wraps once, to 0x0001 |
| ChecksumProperties.OutOfRangeChecksum | checksum.py:101-105 | a checksum wider than 16 bits is added unchecked: 0x1FFFE validates the empty text, and 0x1FFFF gives the final sum 0x10000 |

## Left out

- The web layer (`main.py`, `ChecksumProject/main.py`): the HTTP routes, the packet store and the parsing of the hexadecimal checksum are not part of this model. The receiver takes that parsed value as an unconstrained integer.
- The text rendering of trace lines: binary and hexadecimal formatting in the f-strings is not modelled. Each line keeps the values it displays, and the section titles are kept verbatim.
- A `None` argument: `if not data: data = ""` in the sender only matters for `None`. A Dafny `string` cannot be `None`, and the empty string already takes the empty-payload path.
- Trace.ReceivedWordLines: its contract states only the number of lines, not the word each line carries. The line contents are still fixed by the receiver method's equality with ReceiverSpec.
- OnesComplement.FoldDetectsWordChange: it does not cover the swap of 0x0000 and 0xFFFF, which one's complement cannot detect. ASCII words never reach 0xFFFF, so the text-level lemma needs no such exception.
