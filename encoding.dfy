/** The encoder of checksum.py: text to ASCII bytes, padding to an even
    length, and segmentation into big-endian 16-bit words. */
module Encoding {

  /** An 8-bit value produced by ASCII encoding (or the zero pad byte). */
  type byte = x: int | 0 <= x < 0x100

  /** A 16-bit unsigned value: a data word, an accumulator or a checksum. */
  type word = x: int | 0 <= x < 0x1_0000

  /** Python's UnicodeEncodeError for the 'ascii' codec, carrying the
      position of the first character that has no ASCII byte. */
  datatype EncodeError = NonAscii(position: nat)

  /** The outcome of an engine call: a value, or the encoding error that
      aborts the call before any trace is returned. */
  datatype Result<T> = Ok(value: T) | Err(error: EncodeError)

  predicate IsAsciiChar(c: char) {
    c as int < 0x80
  }

  predicate IsAscii(text: string) {
    forall i :: 0 <= i < |text| ==> IsAsciiChar(text[i])
  }

  /** `data.encode('ascii')`: one byte per character, or an error naming the
      first character outside the 7-bit range. */
  function Encode(text: string): (r: Result<seq<byte>>)
    ensures r.Ok? <==> IsAscii(text)
    ensures r.Ok? ==> |r.value| == |text|
    ensures r.Ok? ==> forall i :: 0 <= i < |text| ==> r.value[i] == text[i] as int
    ensures r.Err? ==> r.error.position < |text| && !IsAsciiChar(text[r.error.position])
    ensures r.Err? ==> IsAscii(text[..r.error.position])
  {
    if text == [] then Ok([])
    else if !IsAsciiChar(text[0]) then Err(NonAscii(0))
    else match Encode(text[1..])
      case Err(e) =>
        assert text[1..][..e.position] == text[1..e.position + 1];
        Err(NonAscii(e.position + 1))
      case Ok(rest) => Ok([text[0] as int] + rest)
  }

  /** Padding: a byte string of odd length gains one zero byte at the end. */
  function Pad(bytes: seq<byte>): (r: seq<byte>)
    ensures |r| % 2 == 0
    ensures |r| == |bytes| + |bytes| % 2
    ensures r[..|bytes|] == bytes
    ensures forall i :: |bytes| <= i < |r| ==> r[i] == 0
  {
    if |bytes| % 2 != 0 then bytes + [0] else bytes
  }

  /** The word built from a high and a low byte: `(hi << 8) + lo`. */
  function WordOf(hi: byte, lo: byte): word {
    hi * 0x100 + lo
  }

  /** The loop over `range(0, len(encoded), 2)` that pairs bytes into
      big-endian words. */
  function Words(bytes: seq<byte>): (ws: seq<word>)
    requires |bytes| % 2 == 0
    ensures |ws| == |bytes| / 2
    ensures forall k :: 0 <= k < |ws| ==> ws[k] == WordOf(bytes[2 * k], bytes[2 * k + 1])
  {
    if bytes == [] then []
    else Words(bytes[..|bytes| - 2]) + [WordOf(bytes[|bytes| - 2], bytes[|bytes| - 1])]
  }

  /** The inverse of segmentation: each word split back into its high and
      low byte. */
  function Unpair(ws: seq<word>): (bytes: seq<byte>)
    ensures |bytes| == 2 * |ws|
  {
    if ws == [] then []
    else Unpair(ws[..|ws| - 1]) + [ws[|ws| - 1] / 0x100, ws[|ws| - 1] % 0x100]
  }

  lemma SplitWordOf(hi: byte, lo: byte)
    ensures WordOf(hi, lo) / 0x100 == hi && WordOf(hi, lo) % 0x100 == lo
  {
  }

  /** Segmentation loses nothing: the padded bytes are recovered from the
      words. */
  lemma {:induction false} UnpairWords(bytes: seq<byte>)
    requires |bytes| % 2 == 0
    ensures Unpair(Words(bytes)) == bytes
  {
    if bytes != [] {
      var init := bytes[..|bytes| - 2];
      var hi, lo := bytes[|bytes| - 2], bytes[|bytes| - 1];
      var ws := Words(bytes);
      UnpairWords(init);
      assert ws == Words(init) + [WordOf(hi, lo)];
      assert ws[..|ws| - 1] == Words(init);
      SplitWordOf(hi, lo);
      assert Unpair(ws) == bytes[..|bytes| - 2] + [hi, lo];
      assert bytes == init + [hi, lo];
    }
  }

  /** Byte strings that differ in byte i only have words that differ in word
      i / 2 only. */
  lemma WordsDifferAt(p: seq<byte>, p': seq<byte>, i: nat)
    requires |p| % 2 == 0 && |p'| == |p| && i < |p|
    requires p'[i] != p[i]
    requires forall j :: 0 <= j < |p| && j != i ==> p'[j] == p[j]
    ensures |Words(p')| == |Words(p)| && i / 2 < |Words(p)|
    ensures Words(p') == Words(p)[i / 2 := Words(p')[i / 2]]
    ensures Words(p')[i / 2] != Words(p)[i / 2]
  {
    var k := i / 2;
    SplitWordOf(p[2 * k], p[2 * k + 1]);
    SplitWordOf(p'[2 * k], p'[2 * k + 1]);
    var ws, ws' := Words(p), Words(p');
    forall m | 0 <= m < |ws| && m != k
      ensures ws'[m] == ws[m]
    {
      assert p'[2 * m] == p[2 * m] && p'[2 * m + 1] == p[2 * m + 1];
    }
  }

  /** The words of a whole text: encode, pad, segment. */
  function TextWords(bytes: seq<byte>): (ws: seq<word>)
    ensures |ws| == (|bytes| + 1) / 2
  {
    Words(Pad(bytes))
  }

  /** Words of ASCII bytes never reach 0xFFFF: both bytes are below 0x80. */
  lemma AsciiWordsBelowAllOnes(text: string)
    requires Encode(text).Ok?
    ensures forall k :: 0 <= k < |TextWords(Encode(text).value)| ==>
      TextWords(Encode(text).value)[k] <= 0x7F7F
  {
    var bytes := Encode(text).value;
    var padded := Pad(bytes);
    forall k | 0 <= k < |TextWords(bytes)|
      ensures TextWords(bytes)[k] <= 0x7F7F
    {
      assert padded[2 * k] < 0x80 by {
        if 2 * k < |bytes| { assert padded[2 * k] == bytes[2 * k]; }
      }
      assert padded[2 * k + 1] < 0x80 by {
        if 2 * k + 1 < |bytes| { assert padded[2 * k + 1] == bytes[2 * k + 1]; }
      }
    }
  }
}
