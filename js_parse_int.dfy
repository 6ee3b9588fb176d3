/**
 * The two JavaScript built-ins that `hexStringToByteArray` relies on for each
 * byte: `parseInt(text, 16)` (ECMAScript, section 19.2.5 "parseInt (string, radix)")
 * and the conversion a `Uint8Array` applies on element assignment (ToUint8,
 * section 7.1.11).  A JavaScript string is modelled as a sequence of `char`,
 * one `char` per UTF-16 code unit of the Basic Multilingual Plane other than a
 * surrogate.  `parseInt` returns an IEEE-754 double; here its result is the
 * exact integer, which is the same value for numerals of at most 13 digits.
 */
module JsParseInt {

  /** The element type of a `Uint8Array`. */
  type uint8 = x: int | 0 <= x < 0x100

  /**
   * The result of `parseInt`: `NaN` or the exact integer value of the numeral
   * read (JavaScript would round it to a double).  `-0` is folded into `Int(0)`.
   */
  datatype Number = NaN | Int(value: int)

  /** A digit of radix 16, in either case. */
  predicate IsHexDigit(c: char) {
    '0' <= c <= '9' || 'a' <= c <= 'f' || 'A' <= c <= 'F'
  }

  /** The value of a radix-16 digit. */
  function HexValue(c: char): (v: nat)
    requires IsHexDigit(c)
    ensures v < 16
    ensures '0' <= c <= '9' ==> v < 10
  {
    if '0' <= c <= '9' then c as int - '0' as int
    else if 'a' <= c <= 'f' then c as int - 'a' as int + 10
    else c as int - 'A' as int + 10
  }

  /** A digit is neither white space nor a sign. */
  lemma HexDigitRole(c: char)
    requires IsHexDigit(c)
    ensures !IsStrWhiteSpace(c) && c != '-' && c != '+'
  {
  }

  /**
   * StrWhiteSpaceChar: the white-space and line-terminator code units that
   * `parseInt` skips before the number (TAB, VT, FF, SP, NBSP, ZWNBSP, the
   * other space separators of Unicode category Zs, LF, CR, LS, PS).
   */
  predicate IsStrWhiteSpace(c: char) {
    c == '\t' || c == '\U{B}' || c == '\U{C}' || c == ' ' || c == '\U{A0}' || c == '\U{FEFF}'
    || c == '\U{1680}' || '\U{2000}' <= c <= '\U{200A}' || c == '\U{202F}' || c == '\U{205F}'
    || c == '\U{3000}'
    || c == '\n' || c == '\r' || c == '\U{2028}' || c == '\U{2029}'
  }

  /** The length of the run of white space at the start of `s`. */
  function LeadingWhiteSpace(s: string): (n: nat)
    ensures n <= |s|
    ensures forall i {:trigger IsStrWhiteSpace(s[i])} :: 0 <= i < n ==> IsStrWhiteSpace(s[i])
  {
    if s != [] && IsStrWhiteSpace(s[0]) then 1 + LeadingWhiteSpace(s[1..]) else 0
  }

  /** The run of white space is the longest one: what follows it is not white space. */
  lemma {:induction false} LeadingWhiteSpaceMaximal(s: string)
    ensures var n := LeadingWhiteSpace(s); n == |s| || !IsStrWhiteSpace(s[n])
    decreases |s|
  {
    if s != [] && IsStrWhiteSpace(s[0]) {
      LeadingWhiteSpaceMaximal(s[1..]);
    }
  }

  /** The length of the longest prefix of `s` made of radix-16 digits. */
  function DigitPrefixLength(s: string): (n: nat)
    ensures n <= |s|
    ensures forall i {:trigger IsHexDigit(s[i])} :: 0 <= i < n ==> IsHexDigit(s[i])
    ensures n == |s| || !IsHexDigit(s[n])
  {
    if s != [] && IsHexDigit(s[0]) then 1 + DigitPrefixLength(s[1..]) else 0
  }

  predicate AllHexDigits(s: string) {
    forall i :: 0 <= i < |s| ==> IsHexDigit(s[i])
  }

  function Pow16(n: nat): (p: nat)
    ensures p >= 1
  {
    if n == 0 then 1 else 16 * Pow16(n - 1)
  }

  lemma {:induction false} Pow16Monotone(m: nat, n: nat)
    requires m <= n
    ensures Pow16(m) <= Pow16(n)
    decreases n
  {
    if m < n {
      Pow16Monotone(m, n - 1);
    }
  }

  /** The value of a radix-16 numeral, most significant digit first. */
  function NumeralValue(z: string): (v: nat)
    requires AllHexDigits(z)
    ensures v < Pow16(|z|)
  {
    if z == [] then 0
    else
      var v' := NumeralValue(z[..|z| - 1]);
      assert v' <= Pow16(|z| - 1) - 1;
      16 * v' + HexValue(z[|z| - 1])
  }

  /**
   * `parseInt(s, 16)`: skip leading white space, take an optional sign, drop an
   * optional `0x`/`0X` prefix, then read the longest run of radix-16 digits; no
   * digit at all gives `NaN`.
   */
  function ParseInt16(s: string): (r: Number)
    ensures r.NaN? <==> DigitsStart(s) == |s| || !IsHexDigit(s[DigitsStart(s)])
    ensures r.Int? && r.value < 0 ==> HasMinusSign(s)
    ensures r.Int? ==> 0 - Pow16(|s|) < r.value < Pow16(|s|)
  {
    var w := s[DigitsStart(s)..];
    Pow16Monotone(DigitPrefixLength(w), |s|);
    ReadDigits(HasMinusSign(s), w)
  }

  /**
   * A numeral of at most 13 characters parses to a value of magnitude below
   * 2^53, which a double holds exactly, so the exact integer of `ParseInt16`
   * is the number JavaScript computes.
   */
  lemma ParseIntExactInDouble(s: string)
    requires |s| <= 13
    ensures ParseInt16(s).Int? ==> -0x20_0000_0000_0000 < ParseInt16(s).value < 0x20_0000_0000_0000
  {
    Pow16Monotone(|s|, 13);
    assert Pow16(13) == 0x10_0000_0000_0000;
  }

  /** Whether a `-` follows the leading white space. */
  predicate HasMinusSign(s: string) {
    var k := LeadingWhiteSpace(s);
    k < |s| && s[k] == '-'
  }

  /** Where the digits start: after the white space, the sign and the `0x` prefix. */
  function DigitsStart(s: string): (k: nat)
    ensures k <= |s|
  {
    var k := LeadingWhiteSpace(s);
    var k' := k + SignLength(s, k);
    k' + HexPrefixLength(s, k')
  }

  /** 1 when a `-` or `+` stands at position `k` of `s`, else 0. */
  function SignLength(s: string, k: nat): (n: nat)
    ensures k + n <= |s| || n == 0
  {
    if k < |s| && (s[k] == '-' || s[k] == '+') then 1 else 0
  }

  /** 2 when `0x` or `0X` stands at position `k` of `s` (radix 16 allows that prefix), else 0. */
  function HexPrefixLength(s: string, k: nat): (n: nat)
    ensures k + n <= |s| || n == 0
  {
    if k + 2 <= |s| && s[k] == '0' && (s[k + 1] == 'x' || s[k + 1] == 'X') then 2 else 0
  }

  /** Reads the longest run of radix-16 digits at the start of `w`; none gives `NaN`. */
  function ReadDigits(negative: bool, w: string): Number {
    var n := DigitPrefixLength(w);
    if n == 0 then NaN
    else
      var m: int := NumeralValue(w[..n]);
      Int(if negative then -m else m)
  }

  /** ToUint8: `NaN` stores 0, an integer is reduced modulo 2^8. */
  function ToUint8(n: Number): (b: uint8)
    ensures n.NaN? ==> b == 0
    ensures n.Int? ==> (n.value - b) % 0x100 == 0
    ensures n.Int? && 0 <= n.value < 0x100 ==> b == n.value
  {
    match n
    case NaN => 0
    case Int(v) => v % 0x100
  }

  /** Two hex digits parse to the number they spell. */
  lemma ParseHexPair(c0: char, c1: char)
    requires IsHexDigit(c0) && IsHexDigit(c1)
    ensures ParseInt16([c0, c1]) == Int(16 * HexValue(c0) + HexValue(c1))
    ensures 16 * HexValue(c0) + HexValue(c1) < 0x100
  {
    var s := [c0, c1];
    assert !IsStrWhiteSpace(c0);
    assert LeadingWhiteSpace(s) == 0 && SignLength(s, 0) == 0 && HexPrefixLength(s, 0) == 0;
    assert s[0..] == s;
    assert DigitPrefixLength(s) == 2 by {
      assert s[1..] == [c1];
      assert [c1][1..] == [];
    }
    assert s[..2] == s;
    assert NumeralValue(s) == 16 * HexValue(c0) + HexValue(c1) by {
      assert s[..1] == [c0];
      assert [c0][..0] == [];
    }
  }

  /* ---------- Case insensitivity ---------- */

  /** ASCII upper case; every other character is left as it is. */
  function UpperCase(c: char): char {
    if 'a' <= c <= 'z' then (c as int - 32) as char else c
  }

  /** `s` and `t` spell the same text, up to the case of ASCII letters. */
  predicate EqualIgnoringCase(s: string, t: string) {
    |s| == |t| && forall i :: 0 <= i < |s| ==> UpperCase(s[i]) == UpperCase(t[i])
  }

  /**
   * Two characters equal up to case play the same role for `parseInt`: white
   * space, sign, `0`, the prefix letter `x`, and a digit of the same value.
   */
  lemma CharRoleIgnoresCase(c: char, d: char)
    requires UpperCase(c) == UpperCase(d)
    ensures IsStrWhiteSpace(c) == IsStrWhiteSpace(d)
    ensures (c == '-') == (d == '-') && (c == '+') == (d == '+') && (c == '0') == (d == '0')
    ensures (c == 'x' || c == 'X') == (d == 'x' || d == 'X')
    ensures IsHexDigit(c) == IsHexDigit(d)
    ensures IsHexDigit(c) ==> HexValue(c) == HexValue(d)
  {
  }

  lemma EqualIgnoringCaseSlice(s: string, t: string, i: nat, j: nat)
    requires EqualIgnoringCase(s, t) && i <= j <= |s|
    ensures EqualIgnoringCase(s[i..j], t[i..j])
  {
    assert forall k :: 0 <= k < j - i ==> s[i..j][k] == s[i + k] && t[i..j][k] == t[i + k];
  }

  lemma {:induction false} LeadingWhiteSpaceIgnoresCase(s: string, t: string)
    requires EqualIgnoringCase(s, t)
    ensures LeadingWhiteSpace(s) == LeadingWhiteSpace(t)
    decreases |s|
  {
    if s != [] {
      CharRoleIgnoresCase(s[0], t[0]);
      EqualIgnoringCaseSlice(s, t, 1, |s|);
      LeadingWhiteSpaceIgnoresCase(s[1..], t[1..]);
    }
  }

  lemma {:induction false} DigitPrefixLengthIgnoresCase(s: string, t: string)
    requires EqualIgnoringCase(s, t)
    ensures DigitPrefixLength(s) == DigitPrefixLength(t)
    decreases |s|
  {
    if s != [] {
      CharRoleIgnoresCase(s[0], t[0]);
      EqualIgnoringCaseSlice(s, t, 1, |s|);
      DigitPrefixLengthIgnoresCase(s[1..], t[1..]);
    }
  }

  lemma {:induction false} NumeralValueIgnoresCase(y: string, z: string)
    requires EqualIgnoringCase(y, z) && AllHexDigits(y) && AllHexDigits(z)
    ensures NumeralValue(y) == NumeralValue(z)
    decreases |y|
  {
    if y != [] {
      var n := |y| - 1;
      EqualIgnoringCaseSlice(y, z, 0, n);
      NumeralValueIgnoresCase(y[..n], z[..n]);
      CharRoleIgnoresCase(y[n], z[n]);
    }
  }

  lemma ReadDigitsIgnoresCase(negative: bool, w: string, w': string)
    requires EqualIgnoringCase(w, w')
    ensures ReadDigits(negative, w) == ReadDigits(negative, w')
  {
    DigitPrefixLengthIgnoresCase(w, w');
    var n := DigitPrefixLength(w);
    EqualIgnoringCaseSlice(w, w', 0, n);
    if n > 0 {
      NumeralValueIgnoresCase(w[..n], w'[..n]);
    }
  }

  lemma DigitsStartIgnoresCase(s: string, t: string)
    requires EqualIgnoringCase(s, t)
    ensures HasMinusSign(s) == HasMinusSign(t)
    ensures DigitsStart(s) == DigitsStart(t)
  {
    LeadingWhiteSpaceIgnoresCase(s, t);
    var k := LeadingWhiteSpace(s);
    if k < |s| {
      CharRoleIgnoresCase(s[k], t[k]);
    }
    var k' := k + SignLength(s, k);
    if k' + 2 <= |s| {
      CharRoleIgnoresCase(s[k'], t[k']);
      CharRoleIgnoresCase(s[k' + 1], t[k' + 1]);
    }
  }

  /**
   * `parseInt(s, 16)` does not depend on the case of the letters in `s`: the
   * digits `a`-`f`, the prefix letter `x` and the non-digits all keep their role
   * under a change of case.
   */
  lemma ParseIntIgnoresCase(s: string, t: string)
    requires EqualIgnoringCase(s, t)
    ensures ParseInt16(s) == ParseInt16(t)
  {
    DigitsStartIgnoresCase(s, t);
    var j := DigitsStart(s);
    EqualIgnoringCaseSlice(s, t, j, |s|);
    ReadDigitsIgnoresCase(HasMinusSign(s), s[j..], t[j..]);
  }
}
