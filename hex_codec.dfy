/**
 * The base16 codec of the command-line front end: `fromHexString` turns a
 * string of hex digit pairs into bytes, and `vectorToHex` writes bytes as
 * zero-padded lower-case hex pairs (base16 in the sense of section 8 of
 * RFC 4648, but with lower-case output).
 */
module HexCodec {

  /** A uint8_t as the codec sees it: a number 0 .. 255. */
  type Byte = b: int | 0 <= b < 256

  /** The outcome of `fromHexString`: the decoded bytes, or the error thrown for an odd length. */
  datatype DecodeResult = Decoded(bytes: seq<Byte>) | OddLength

  // ---------------------------------------------------------------------------
  // Digits
  // ---------------------------------------------------------------------------

  /** A character that base-16 `stoi` reads as a digit: 0-9, a-f or A-F. */
  predicate IsHexDigit(c: char)
  {
    '0' <= c <= '9' || 'a' <= c <= 'f' || 'A' <= c <= 'F'
  }

  /** A character `vectorToHex` can write: 0-9 or a-f. */
  predicate IsLowerHexDigit(c: char)
  {
    '0' <= c <= '9' || 'a' <= c <= 'f'
  }

  predicate AllHexDigits(s: string)
  {
    forall i :: 0 <= i < |s| ==> IsHexDigit(s[i])
  }

  /** The value of a hex digit; upper and lower case read the same. */
  function DigitValue(c: char): (v: nat)
    requires IsHexDigit(c)
    ensures v < 16
    ensures ('0' <= c <= '9') <==> v < 10
  {
    if '0' <= c <= '9' then c as int - '0' as int
    else if 'a' <= c <= 'f' then c as int - 'a' as int + 10
    else c as int - 'A' as int + 10
  }

  /** The lower-case digit for a nibble, as the `hex` stream manipulator writes it. */
  function NibbleChar(n: nat): (c: char)
    requires n < 16
    ensures IsLowerHexDigit(c) && DigitValue(c) == n
  {
    if n < 10 then ('0' as int + n) as char else ('a' as int + n - 10) as char
  }

  /** A digit with its letter, if any, in lower case. */
  function LowerDigit(c: char): char
  {
    if 'A' <= c <= 'F' then (c as int - 'A' as int + 'a' as int) as char else c
  }

  /** Every digit written back from its value comes out in lower case. */
  lemma NibbleCharOfDigit(c: char)
    requires IsHexDigit(c)
    ensures NibbleChar(DigitValue(c)) == LowerDigit(c)
  {
  }

  /** Lower-casing a digit keeps it a digit and keeps its value. */
  lemma DigitValueOfLowerDigit(c: char)
    requires IsHexDigit(c)
    ensures IsHexDigit(LowerDigit(c)) && DigitValue(LowerDigit(c)) == DigitValue(c)
  {
  }

  function LowerCase(s: string): (r: string)
    ensures |r| == |s|
  {
    if s == [] then [] else LowerCase(s[..|s| - 1]) + [LowerDigit(s[|s| - 1])]
  }

  // ---------------------------------------------------------------------------
  // One byte
  // ---------------------------------------------------------------------------

  /** `stoi(byteStr, nullptr, 16)` on a pair of hex digits, cast to uint8_t. */
  function ParsePair(hi: char, lo: char): (b: Byte)
    requires IsHexDigit(hi) && IsHexDigit(lo)
    ensures b / 16 == DigitValue(hi) && b % 16 == DigitValue(lo)
  {
    16 * DigitValue(hi) + DigitValue(lo)
  }

  /**
   * `setw(2)` with fill '0' in hex mode: two lower-case digits, the high nibble
   * then the low nibble, so that a byte below 16 gets a leading '0'.
   */
  function ByteToHex(b: Byte): (s: string)
    ensures |s| == 2
    ensures IsLowerHexDigit(s[0]) && IsLowerHexDigit(s[1])
    ensures 16 * DigitValue(s[0]) + DigitValue(s[1]) == b
    ensures b < 16 ==> s[0] == '0'
  {
    [NibbleChar(b / 16), NibbleChar(b % 16)]
  }

  /** Parsing the two digits written for a byte gives the byte back. */
  lemma ParsePairOfByteToHex(b: Byte)
    ensures ParsePair(ByteToHex(b)[0], ByteToHex(b)[1]) == b
  {
  }

  /** Writing the byte a lower-cased pair parses to gives the lower-cased pair back. */
  lemma ByteToHexOfParsePair(hi: char, lo: char)
    requires IsHexDigit(hi) && IsHexDigit(lo)
    ensures ByteToHex(ParsePair(hi, lo)) == [LowerDigit(hi), LowerDigit(lo)]
  {
    NibbleCharOfDigit(hi);
    NibbleCharOfDigit(lo);
  }

  // ---------------------------------------------------------------------------
  // Sequences: the reference definitions
  // ---------------------------------------------------------------------------

  /** The hex text of `data`: the pairs of its bytes, in order. */
  function HexEncode(data: seq<Byte>): (s: string)
    ensures |s| == 2 * |data|
  {
    if data == [] then [] else HexEncode(data[..|data| - 1]) + ByteToHex(data[|data| - 1])
  }

  /** The bytes of an even-length string of hex digits: one per pair, in order. */
  function DecodePairs(hex: string): (bytes: seq<Byte>)
    requires |hex| % 2 == 0 && AllHexDigits(hex)
    ensures |bytes| == |hex| / 2
  {
    if hex == [] then []
    else DecodePairs(hex[..|hex| - 2]) + [ParsePair(hex[|hex| - 2], hex[|hex| - 1])]
  }

  /** What `fromHexString` returns: an error for an odd length, the decoded pairs otherwise. */
  function HexDecode(hex: string): DecodeResult
    requires |hex| % 2 == 0 ==> AllHexDigits(hex)
  {
    if |hex| % 2 != 0 then OddLength else Decoded(DecodePairs(hex))
  }

  // ---------------------------------------------------------------------------
  // The two functions of the front end
  // ---------------------------------------------------------------------------

  /**
   * fromHexString: an odd length is rejected before anything is parsed;
   * otherwise every pair from index 0 in steps of two is parsed and appended.
   */
  method FromHexString(hex: string) returns (r: DecodeResult)
    requires |hex| % 2 == 0 ==> AllHexDigits(hex)
    ensures r == HexDecode(hex)
    ensures r.OddLength? <==> |hex| % 2 != 0
    ensures r.Decoded? ==> |r.bytes| == |hex| / 2
    ensures r.Decoded? ==> forall k :: 0 <= k < |r.bytes| ==>
              r.bytes[k] == 16 * DigitValue(hex[2 * k]) + DigitValue(hex[2 * k + 1])
  {
    if |hex| % 2 != 0 {
      return OddLength;
    }
    var result: seq<Byte> := [];
    var i := 0;
    while i < |hex|
      invariant 0 <= i <= |hex| && i % 2 == 0
      invariant result == DecodePairs(hex[..i])
    {
      var byteStr := hex[i..i + 2];
      var b := ParsePair(byteStr[0], byteStr[1]);
      DecodePairsSnoc(hex, i);
      result := result + [b];
      i := i + 2;
    }
    assert hex[..i] == hex;
    r := Decoded(result);
    DecodePairsAt(hex);
  }

  /** Decoding one more pair appends its byte. */
  lemma DecodePairsSnoc(hex: string, i: nat)
    requires |hex| % 2 == 0 && AllHexDigits(hex) && i % 2 == 0 && i + 2 <= |hex|
    ensures DecodePairs(hex[..i + 2]) == DecodePairs(hex[..i]) + [ParsePair(hex[i], hex[i + 1])]
  {
    var p := hex[..i + 2];
    assert p[..|p| - 2] == hex[..i];
  }

  /**
   * vectorToHex: every byte is written as two lower-case digits, zero-padded,
   * and appended to what has been written so far.
   */
  method VectorToHex(data: seq<Byte>) returns (s: string)
    ensures s == HexEncode(data)
    ensures |s| == 2 * |data|
    ensures forall i :: 0 <= i < |s| ==> IsLowerHexDigit(s[i])
  {
    s := [];
    for k := 0 to |data|
      invariant s == HexEncode(data[..k])
    {
      assert data[..k + 1][..k] == data[..k];
      s := s + ByteToHex(data[k]);
    }
    assert data[..|data|] == data;
    HexEncodeIsLowerHex(data);
  }

  // ---------------------------------------------------------------------------
  // Properties
  // ---------------------------------------------------------------------------

  /** Byte k of the decoded pairs is the value of digits 2k and 2k + 1. */
  lemma DecodePairsAt(hex: string)
    requires |hex| % 2 == 0 && AllHexDigits(hex)
    ensures forall k :: 0 <= k < |hex| / 2 ==>
              DecodePairs(hex)[k] == ParsePair(hex[2 * k], hex[2 * k + 1])
  {
    forall k | 0 <= k < |hex| / 2
      ensures DecodePairs(hex)[k] == ParsePair(hex[2 * k], hex[2 * k + 1])
    {
      DecodePairAt(hex, k);
    }
  }

  lemma {:induction false} DecodePairAt(hex: string, k: nat)
    requires |hex| % 2 == 0 && AllHexDigits(hex) && 2 * k + 2 <= |hex|
    ensures DecodePairs(hex)[k] == ParsePair(hex[2 * k], hex[2 * k + 1])
    decreases |hex|
  {
    var front := hex[..|hex| - 2];
    if 2 * k + 2 <= |front| {
      DecodePairAt(front, k);
      assert front[2 * k] == hex[2 * k] && front[2 * k + 1] == hex[2 * k + 1];
    } else {
      assert 2 * k == |hex| - 2;
    }
  }

  /** Characters 2k and 2k + 1 of the text are the high and low nibble digits of byte k. */
  lemma {:induction false} HexEncodeAt(data: seq<Byte>)
    ensures forall k :: 0 <= k < |data| ==>
              HexEncode(data)[2 * k] == NibbleChar(data[k] / 16) &&
              HexEncode(data)[2 * k + 1] == NibbleChar(data[k] % 16)
    decreases |data|
  {
    if data != [] {
      var front := data[..|data| - 1];
      HexEncodeAt(front);
      assert forall k :: 0 <= k < |front| ==> front[k] == data[k];
    }
  }

  /** The text holds lower-case hex digits only. */
  lemma HexEncodeIsLowerHex(data: seq<Byte>)
    ensures forall i :: 0 <= i < |HexEncode(data)| ==> IsLowerHexDigit(HexEncode(data)[i])
  {
    HexEncodeAt(data);
    forall i | 0 <= i < |HexEncode(data)|
      ensures IsLowerHexDigit(HexEncode(data)[i])
    {
      var k := i / 2;
      assert i == 2 * k || i == 2 * k + 1;
    }
  }

  /** The text of a concatenation is the concatenation of the texts. */
  lemma {:induction false} HexEncodeAppend(a: seq<Byte>, b: seq<Byte>)
    ensures HexEncode(a + b) == HexEncode(a) + HexEncode(b)
    decreases |b|
  {
    if b != [] {
      var front := b[..|b| - 1];
      var last := b[|b| - 1];
      assert (a + b)[..|a + b| - 1] == a + front;
      assert (a + b)[|a + b| - 1] == last;
      HexEncodeAppend(a, front);
      calc {
        HexEncode(a + b);
        HexEncode(a + front) + ByteToHex(last);
        HexEncode(a) + HexEncode(front) + ByteToHex(last);
        HexEncode(a) + (HexEncode(front) + ByteToHex(last));
        HexEncode(a) + HexEncode(b);
      }
    } else {
      assert a + b == a;
    }
  }

  /** Round trip: decoding the text of any byte sequence, the empty one included, gives it back. */
  lemma {:induction false} DecodePairsOfHexEncode(data: seq<Byte>)
    ensures AllHexDigits(HexEncode(data))
    ensures DecodePairs(HexEncode(data)) == data
    decreases |data|
  {
    HexEncodeIsHex(data);
    if data != [] {
      var front, last := data[..|data| - 1], data[|data| - 1];
      var s, pair := HexEncode(data), ByteToHex(data[|data| - 1]);
      DecodePairsOfHexEncode(front);
      assert s == HexEncode(front) + pair;
      assert s[..|s| - 2] == HexEncode(front);
      assert s[|s| - 2] == pair[0] && s[|s| - 1] == pair[1];
      ParsePairOfByteToHex(last);
      assert DecodePairs(s) == DecodePairs(HexEncode(front)) + [ParsePair(pair[0], pair[1])];
      assert data == front + [last];
    }
  }

  lemma HexEncodeIsHex(data: seq<Byte>)
    ensures AllHexDigits(HexEncode(data))
  {
    HexEncodeIsLowerHex(data);
  }

  lemma HexDecodeOfHexEncode(data: seq<Byte>)
    ensures AllHexDigits(HexEncode(data))
    ensures HexDecode(HexEncode(data)) == Decoded(data)
  {
    DecodePairsOfHexEncode(data);
  }

  /** The other direction: writing the decoded bytes gives the input back with its letters lower-cased. */
  lemma {:induction false} HexEncodeOfDecodePairs(hex: string)
    requires |hex| % 2 == 0 && AllHexDigits(hex)
    ensures HexEncode(DecodePairs(hex)) == LowerCase(hex)
    decreases |hex|
  {
    if hex != [] {
      var front := hex[..|hex| - 2];
      var bytes := DecodePairs(hex);
      HexEncodeOfDecodePairs(front);
      assert bytes[..|bytes| - 1] == DecodePairs(front);
      ByteToHexOfParsePair(hex[|hex| - 2], hex[|hex| - 1]);
      var p := hex[..|hex| - 1];
      assert p[..|p| - 1] == front;
    }
  }

  /** On lower-case input, writing back the decoded bytes reproduces the input exactly. */
  lemma {:induction false} LowerCaseOfLowerHex(s: string)
    requires forall i :: 0 <= i < |s| ==> IsLowerHexDigit(s[i])
    ensures LowerCase(s) == s
    decreases |s|
  {
    if s != [] {
      LowerCaseOfLowerHex(s[..|s| - 1]);
    }
  }
}
