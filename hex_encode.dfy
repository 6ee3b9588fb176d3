/**
 * The inverse of `hexStringToByteArray`: every byte written as two lower-case
 * hex digits, most significant first.  Decoding and encoding undo each other.
 */
module HexEncode {
  import opened JsParseInt
  import opened HexDecode

  /** The lower-case hex digit of value `v`. */
  function HexDigit(v: nat): (c: char)
    requires v < 16
    ensures IsHexDigit(c) && HexValue(c) == v
    ensures !('A' <= c <= 'Z')
  {
    if v < 10 then ('0' as int + v) as char else ('a' as int + v - 10) as char
  }

  /** Each byte as two hex digits. */
  function EncodeBytes(bs: seq<uint8>): (s: string)
    ensures |s| == 2 * |bs|
    ensures AllHexDigits(s)
  {
    if bs == [] then [] else [HexDigit(bs[0] / 16), HexDigit(bs[0] % 16)] + EncodeBytes(bs[1..])
  }

  /** Writing each byte as two hex digits and then decoding gives back the bytes. */
  lemma {:induction false} DecodeEncode(bs: seq<uint8>)
    ensures HexStringToBytes(EncodeBytes(bs)) == Ok(bs)
  {
    DecodePairsOfEncoding(bs);
  }

  lemma {:induction false} DecodePairsOfEncoding(bs: seq<uint8>)
    ensures DecodePairs(EncodeBytes(bs)) == bs
    decreases |bs|
  {
    if bs != [] {
      var s := EncodeBytes(bs);
      assert s[2..] == EncodeBytes(bs[1..]);
      PairByteOfHexDigits(HexDigit(bs[0] / 16), HexDigit(bs[0] % 16));
      DecodePairsOfEncoding(bs[1..]);
    }
  }

  /** Re-encoding the digit of a character gives the same character up to case. */
  lemma HexDigitOfValue(c: char)
    requires IsHexDigit(c)
    ensures UpperCase(HexDigit(HexValue(c))) == UpperCase(c)
  {
  }

  /** The byte of a hex pair, written as two digits, gives the pair back up to case. */
  lemma ReencodePair(c0: char, c1: char)
    requires IsHexDigit(c0) && IsHexDigit(c1)
    ensures var b := PairByte(c0, c1);
      EqualIgnoringCase([HexDigit(b / 16), HexDigit(b % 16)], [c0, c1])
  {
    PairByteOfHexDigits(c0, c1);
    var b := 16 * HexValue(c0) + HexValue(c1);
    assert b / 16 == HexValue(c0) && b % 16 == HexValue(c1);
    HexDigitOfValue(c0);
    HexDigitOfValue(c1);
  }

  /**
   * Decoding a hex string and encoding the bytes again gives the string back,
   * up to the case of its letters (the encoder writes lower case).
   */
  lemma {:induction false} EncodeDecode(s: string)
    requires |s| % 2 == 0 && AllHexDigits(s)
    ensures HexStringToBytes(s).Ok?
    ensures EqualIgnoringCase(EncodeBytes(HexStringToBytes(s).value), s)
    decreases |s|
  {
    if s != [] {
      var t := s[2..];
      var b := PairByte(s[0], s[1]);
      var head := [HexDigit(b / 16), HexDigit(b % 16)];
      ReencodePair(s[0], s[1]);
      assert AllHexDigits(t) by {
        assert forall i :: 0 <= i < |t| ==> t[i] == s[i + 2];
      }
      EncodeDecode(t);
      assert EncodeBytes(DecodePairs(s)) == head + EncodeBytes(DecodePairs(t)) by {
        assert DecodePairs(s) == [b] + DecodePairs(t);
      }
      assert s == [s[0], s[1]] + t;
      PrependIgnoringCase(head, [s[0], s[1]], EncodeBytes(DecodePairs(t)), t);
    }
  }

  lemma PrependIgnoringCase(x: string, y: string, s: string, t: string)
    requires EqualIgnoringCase(x, y) && EqualIgnoringCase(s, t)
    ensures EqualIgnoringCase(x + s, y + t)
  {
    forall i | |x| <= i < |x| + |s|
      ensures UpperCase((x + s)[i]) == UpperCase((y + t)[i])
    {
      assert (x + s)[i] == s[i - |x|] && (y + t)[i] == t[i - |x|];
    }
  }
}
