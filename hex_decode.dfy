/**
 * `hexStringToByteArray` from test/shared/utils.ts: decodes a string of
 * hexadecimal digit pairs into a freshly allocated `Uint8Array`, or throws when
 * the string has an odd number of characters.
 */
module HexDecode {
  import opened JsParseInt

  /** The string the decoder throws for odd-length input. */
  const OddLengthMessage: string := "Must have an even number of hex digits to convert to bytes"

  /** A normal return, or the value thrown. */
  datatype Result<T> = Ok(value: T) | Thrown(message: string)

  /**
   * The byte a `Uint8Array` stores for `parseInt` of the two characters `c0 c1`
   * in radix 16, written out case by case: white space or `+` before a digit
   * gives that digit, `-` before a digit gives its negation modulo 256, `0x`
   * gives no digit, a digit followed by a non-digit gives that one digit, and
   * no digit at all gives `NaN`, which is stored as 0.
   */
  function PairByte(c0: char, c1: char): (b: uint8)
    ensures !IsHexDigit(c0) && !IsHexDigit(c1) ==> b == 0
    ensures !(IsHexDigit(c0) && IsHexDigit(c1)) && c0 != '-' ==> b < 16
  {
    if IsStrWhiteSpace(c0) || c0 == '+' then
      (if IsHexDigit(c1) then HexValue(c1) else 0)
    else if c0 == '-' then
      (if IsHexDigit(c1) then (0x100 - HexValue(c1)) % 0x100 else 0)
    else if !IsHexDigit(c0) then 0
    else if c0 == '0' && (c1 == 'x' || c1 == 'X') then 0
    else if IsHexDigit(c1) then 16 * HexValue(c0) + HexValue(c1)
    else HexValue(c0)
  }

  /** `PairByte` is what `parseInt(c0 c1, 16)` gives once stored into a `Uint8Array`. */
  lemma PairByteIsParseInt(c0: char, c1: char)
    ensures PairByte(c0, c1) == ToUint8(ParseInt16([c0, c1]))
  {
    if IsStrWhiteSpace(c0) {
      PairAfterSpace(c0, c1);
    } else {
      var s := [c0, c1];
      assert s[1..] == [c1] && s[0..] == s;
      assert LeadingWhiteSpace(s) == 0;
      if c0 == '-' || c0 == '+' {
        OneDigit(c1);
        assert DigitsStart(s) == 1;
      } else if !(c0 == '0' && (c1 == 'x' || c1 == 'X')) {
        assert DigitsStart(s) == 0 && !HasMinusSign(s);
        if IsHexDigit(c0) {
          TwoDigits(c0, c1);
          OneDigit(c0);
          assert s[..2] == s && s[..1] == [c0];
        }
      }
    }
  }

  lemma PairAfterSpace(c0: char, c1: char)
    requires IsStrWhiteSpace(c0)
    ensures PairByte(c0, c1) == ToUint8(ParseInt16([c0, c1]))
  {
    var s := [c0, c1];
    assert s[1..] == [c1] && s[2..] == [];
    assert [c1][1..] == [];
    assert LeadingWhiteSpace(s) == 1 + LeadingWhiteSpace([c1]);
    if IsStrWhiteSpace(c1) {
      assert DigitsStart(s) == 2;
    } else {
      OneDigit(c1);
      assert LeadingWhiteSpace(s) == 1;
      assert HexPrefixLength(s, 1) == 0 && HexPrefixLength(s, 2) == 0;
    }
  }

  lemma OneDigit(c: char)
    ensures IsHexDigit(c) ==> DigitPrefixLength([c]) == 1 && NumeralValue([c]) == HexValue(c)
    ensures !IsHexDigit(c) ==> DigitPrefixLength([c]) == 0
  {
    assert [c][1..] == [] && [c][..0] == [];
  }

  lemma TwoDigits(c0: char, c1: char)
    requires IsHexDigit(c0)
    ensures IsHexDigit(c1) ==> DigitPrefixLength([c0, c1]) == 2
    ensures IsHexDigit(c1) ==> NumeralValue([c0, c1]) == 16 * HexValue(c0) + HexValue(c1)
    ensures !IsHexDigit(c1) ==> DigitPrefixLength([c0, c1]) == 1
  {
    var s := [c0, c1];
    assert s[1..] == [c1] && s[..1] == [c0] && s[..2] == s;
    OneDigit(c0);
    OneDigit(c1);
  }

  /** Two hex digits give the byte they spell. */
  lemma PairByteOfHexDigits(c0: char, c1: char)
    requires IsHexDigit(c0) && IsHexDigit(c1)
    ensures PairByte(c0, c1) == 16 * HexValue(c0) + HexValue(c1)
  {
    HexDigitRole(c0);
  }

  /** The bytes of an even-length string, pair by pair. */
  function DecodePairs(s: string): (r: seq<uint8>)
    requires |s| % 2 == 0
    ensures |r| == |s| / 2
  {
    if s == [] then [] else [PairByte(s[0], s[1])] + DecodePairs(s[2..])
  }

  /** Byte `i` of the decoding comes from the characters at `2i` and `2i+1`. */
  lemma {:induction false} DecodePairsAt(s: string, i: nat)
    requires |s| % 2 == 0 && i < |s| / 2
    ensures DecodePairs(s)[i] == PairByte(s[2 * i], s[2 * i + 1])
    decreases i
  {
    if i > 0 {
      DecodePairsAt(s[2..], i - 1);
    }
  }

  /** What a call of `hexStringToByteArray(s)` returns or throws. */
  function HexStringToBytes(s: string): (r: Result<seq<uint8>>)
    ensures r.Thrown? <==> |s| % 2 != 0
    ensures r.Thrown? ==> r.message == OddLengthMessage
    ensures r.Ok? ==> |r.value| == |s| / 2
    ensures s == [] ==> r == Ok([])
  {
    if |s| % 2 != 0 then Thrown(OddLengthMessage) else Ok(DecodePairs(s))
  }

  /**
   * For a string of hex digits, output byte `i` is `16 * hexval(s[2i]) + hexval(s[2i+1])`,
   * which is exactly what `parseInt` returns for that pair: the value is below
   * 256, so the `Uint8Array` stores it unchanged.
   */
  lemma DecodeHexPairAt(s: string, i: nat)
    requires |s| % 2 == 0 && AllHexDigits(s) && i < |s| / 2
    ensures HexStringToBytes(s).Ok?
    ensures HexStringToBytes(s).value[i] == 16 * HexValue(s[2 * i]) + HexValue(s[2 * i + 1])
    ensures ParseInt16(s[2 * i..2 * i + 2]) == Int(HexStringToBytes(s).value[i])
  {
    assert s[2 * i..2 * i + 2] == [s[2 * i], s[2 * i + 1]];
    ParseHexPair(s[2 * i], s[2 * i + 1]);
    DecodePairsAt(s, i);
    PairByteOfHexDigits(s[2 * i], s[2 * i + 1]);
  }

  /** A change of letter case does not change the byte a pair gives. */
  lemma PairByteIgnoresCase(c0: char, c1: char, d0: char, d1: char)
    requires UpperCase(c0) == UpperCase(d0) && UpperCase(c1) == UpperCase(d1)
    ensures PairByte(c0, c1) == PairByte(d0, d1)
  {
    CharRoleIgnoresCase(c0, d0);
    CharRoleIgnoresCase(c1, d1);
  }

  /** Decoding does not depend on the case of the letters in the string. */
  lemma {:induction false} DecodeIgnoresCase(s: string, t: string)
    requires EqualIgnoringCase(s, t)
    ensures HexStringToBytes(s) == HexStringToBytes(t)
  {
    if |s| % 2 == 0 {
      forall i | 0 <= i < |s| / 2
        ensures DecodePairs(s)[i] == DecodePairs(t)[i]
      {
        DecodePairsAt(s, i);
        DecodePairsAt(t, i);
        PairByteIgnoresCase(s[2 * i], s[2 * i + 1], t[2 * i], t[2 * i + 1]);
      }
      assert DecodePairs(s) == DecodePairs(t);
    }
  }

  /**
   * The loop of `hexStringToByteArray`: an odd length throws before anything is
   * allocated; otherwise a zero-filled array of `|s| / 2` bytes is allocated and
   * slot `i` is filled from characters `2i` and `2i+1`.
   */
  method HexStringToByteArray(hexString: string) returns (r: Result<array<uint8>>)
    ensures r.Thrown? <==> HexStringToBytes(hexString).Thrown?
    ensures r.Thrown? ==> r.message == OddLengthMessage
    ensures r.Ok? ==> fresh(r.value) && r.value[..] == HexStringToBytes(hexString).value
  {
    if |hexString| % 2 != 0 {
      return Thrown(OddLengthMessage);
    }
    var numBytes := |hexString| / 2;
    var byteArray := new uint8[numBytes](_ => 0);
    var i := 0;
    while i < numBytes
      invariant 0 <= i <= numBytes
      invariant forall k :: 0 <= k < i ==> byteArray[k] == PairByte(hexString[2 * k], hexString[2 * k + 1])
      invariant forall k :: i <= k < numBytes ==> byteArray[k] == 0
    {
      assert hexString[i * 2..i * 2 + 2] == [hexString[2 * i], hexString[2 * i + 1]];
      PairByteIsParseInt(hexString[2 * i], hexString[2 * i + 1]);
      byteArray[i] := ToUint8(ParseInt16(hexString[i * 2..i * 2 + 2]));
      i := i + 1;
    }
    forall k | 0 <= k < numBytes
      ensures byteArray[k] == DecodePairs(hexString)[k]
    {
      DecodePairsAt(hexString, k);
    }
    return Ok(byteArray);
  }

  /* What `parseInt(_, 16)` and ToUint8 make of some pairs that are not hex digits. */

  /** A digit followed by a non-digit: the digit alone is read. */
  lemma TrailingNonDigit()
    ensures ToUint8(ParseInt16("7z")) == 7
  {
    PairByteIsParseInt('7', 'z');
  }

  /** Leading white space is skipped. */
  lemma LeadingSpace()
    ensures ToUint8(ParseInt16(" 7")) == 7
  {
    PairByteIsParseInt(' ', '7');
  }

  /** A minus sign is read, and the negative number wraps modulo 2^8. */
  lemma MinusSign()
    ensures ToUint8(ParseInt16("-f")) == 241
  {
    PairByteIsParseInt('-', 'f');
  }

  /** `0x` is taken as a prefix, leaving no digit: `NaN`, stored as 0. */
  lemma PrefixOnly()
    ensures ToUint8(ParseInt16("0x")) == 0
  {
    PairByteIsParseInt('0', 'x');
  }

  /** No digit at all: `NaN`, stored as 0. */
  lemma NoDigit()
    ensures ToUint8(ParseInt16("zz")) == 0
  {
    PairByteIsParseInt('z', 'z');
  }
}
