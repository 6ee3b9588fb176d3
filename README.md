# hexStringToByteArray, modelled in Dafny

This project models `hexStringToByteArray` from the marketplace test helpers
(test/shared/utils.ts). The function takes a string of hexadecimal digit pairs
and returns a new `Uint8Array` holding one byte per pair. It throws the string
"Must have an even number of hex digits to convert to bytes" when the input
has an odd number of characters.

Three modules:

- `JsParseInt` (js_parse_int.dfy) models the two JavaScript built-ins that
  produce each byte: `parseInt(text, 16)` (ECMAScript section 19.2.5) and the
  ToUint8 conversion that a `Uint8Array` applies when an element is assigned
  (ECMAScript section 7.1.11). `parseInt` skips leading white space, reads an
  optional sign, drops an optional `0x`/`0X` prefix and reads the longest run
  of hex digits. If no digit is found it returns `NaN`, which the array stores
  as 0. Negative values wrap modulo 256. The result is the exact integer of
  the numeral; JavaScript rounds it to a double, which changes nothing for the
  two-character strings the decoder passes.
- `HexDecode` (hex_decode.dfy) models the function itself. `HexStringToBytes`
  is the value-level specification: what a call returns or throws.
  It decodes pair by pair with `PairByte`, a case-by-case statement of what
  `parseInt` and ToUint8 make of two characters; `PairByteIsParseInt` proves
  the two agree. `HexStringToByteArray` is the imperative version. It
  allocates a zero-filled array of `length / 2` bytes and, in a `while` loop,
  stores ToUint8 of `parseInt` of characters `2i` and `2i+1` into slot `i`.
  It is proved to produce exactly `HexStringToBytes`.
- `HexEncode` (hex_encode.dfy) is the partner encoder: each byte becomes two
  lower-case hex digits. Decoding and encoding are proved to undo each other.

The decoder has no precondition. Like the source, it accepts any string.
The value rule, the round trips and the encoder relation are stated for
strings made only of hex digits. For other characters, the model follows what
`parseInt` and ToUint8 do; five example lemmas in `HexDecode` show those
results.

A JavaScript string is modelled as `string` (`seq<char>`), one `char` per
UTF-16 code unit of the Basic Multilingual Plane other than a surrogate. The thrown value is `Thrown(message)` in a `Result` datatype.
`length % 2` is applied to a non-negative length, so JavaScript's `%` and
Dafny's `%` agree there.

## Model

| member | source | states |
|---|---|---|
| `HexDecode.HexStringToByteArray` | test/shared/utils.ts:13-24 | Throws exactly when the length is odd, with the odd-length message and no array. Otherwise it returns a freshly allocated array whose contents equal `HexStringToBytes`. The loop invariant says slots below `i` hold their decoded pairs and later slots still hold the zero the `Uint8Array` was filled with. |
| `HexDecode.HexStringToBytes` | test/shared/utils.ts:14-19 | The result is a throw exactly when the length is odd, and then the message is the odd-length string. On success there are exactly `length / 2` bytes. The empty string gives an empty byte sequence without error. |
| `HexDecode.DecodePairs` | test/shared/utils.ts:18-22 | Decoding an even-length string pair by pair gives exactly half as many bytes as characters. |
| `HexDecode.DecodePairsAt` | test/shared/utils.ts:20-22 | Byte `i` of the pair-by-pair decoding comes from the two characters at `2i` and `2i+1`. |
| `HexDecode.PairByte` | test/shared/utils.ts:21 | The byte stored for `parseInt` of a pair, as a case table: white space or `+` then a digit gives that digit, `-` then a digit its negation modulo 256, `0x`/`0X` nothing, a digit then a non-digit that one digit, no digit `NaN`. The contract: a pair with no hex digit stores 0, and a pair without two digits and without a leading `-` stores a value below 16. |
| `HexDecode.PairByteIsParseInt` | test/shared/utils.ts:21 | The per-pair rule `PairByte`, written out case by case, equals ToUint8 of `parseInt(pair, 16)` for every pair of characters. |
| `HexDecode.PairByteOfHexDigits` | test/shared/utils.ts:21 | Two hex digits give the byte `16 * hexval(first) + hexval(second)`. |
| `HexDecode.PairByteIgnoresCase` | test/shared/utils.ts:21 | Two pairs that differ only in letter case give the same byte. |
| `HexDecode.DecodeHexPairAt` | test/shared/utils.ts:20-22 | For a string of hex digits, decoding succeeds and byte `i` is `16 * hexval(s[2i]) + hexval(s[2i+1])`. `parseInt` of that pair returns exactly this value, so the array stores it unchanged. |
| `HexDecode.DecodeIgnoresCase` | test/shared/utils.ts:21 | Two strings that differ only in the case of their letters decode to the same result, both for a throw and for a byte sequence. |
| `HexEncode.HexDigit` | test/shared/utils.ts:21 | The digit written for a value below 16 is a lower-case hex digit, and radix-16 parsing gives the value back. |
| `HexEncode.EncodeBytes` | test/shared/utils.ts:18-22 | Encoding writes exactly two hex digits per byte. |
| `HexEncode.DecodePairsOfEncoding` | test/shared/utils.ts:18-22 | Decoding the encoding of any byte sequence, pair by pair, returns that sequence. |
| `HexEncode.DecodeEncode` | test/shared/utils.ts:13-24 | Round trip: writing each byte as two hex digits and then calling the decoder returns the original bytes, with no throw. |
| `HexEncode.EncodeDecode` | test/shared/utils.ts:13-24 | Reverse round trip: an even-length string of hex digits decodes without a throw. Re-encoding its bytes gives the same string up to letter case. |
| `JsParseInt.HexValue` | test/shared/utils.ts:21 | A radix-16 digit has a value below 16, and a decimal digit has a value below 10. |
| `JsParseInt.ParseInt16` | test/shared/utils.ts:21 | `parseInt(s, 16)`: skips leading white space, reads an optional sign, drops a `0x`/`0X` prefix and reads the longest run of hex digits. The result is `NaN` exactly when no hex digit stands where the digits start. A negative result needs a `-` after the white space. The magnitude is below `16^length`. |
| `JsParseInt.ParseIntExactInDouble` | test/shared/utils.ts:21 | A string of at most 13 characters parses to a magnitude below 2^53, where a double is exact, so the exact integer equals JavaScript's number. |
| `JsParseInt.LeadingWhiteSpace` | test/shared/utils.ts:21 | `parseInt` skips a run of leading characters, all of them white space, that is no longer than the string. |
| `JsParseInt.LeadingWhiteSpaceMaximal` | test/shared/utils.ts:21 | The skipped run is maximal: the character after it, if any, is not white space. |
| `JsParseInt.DigitPrefixLength` | test/shared/utils.ts:21 | The digits read form the longest prefix made only of hex digits. |
| `JsParseInt.NumeralValue` | test/shared/utils.ts:21 | The value of an `n`-digit hex numeral is below `16^n`. |
| `JsParseInt.ToUint8` | test/shared/utils.ts:19-21 | Storing into the `Uint8Array` turns `NaN` into 0 and otherwise keeps the byte congruent to the value modulo 256. A value in 0..255 is kept as is. |
| `JsParseInt.ParseHexPair` | test/shared/utils.ts:21 | `parseInt` of two hex digits is `16 * hexval(first) + hexval(second)`, which is below 256. |
| `JsParseInt.ParseIntIgnoresCase` | test/shared/utils.ts:21 | `parseInt(_, 16)` gives the same result for any two strings that differ only in letter case. |
| `HexDecode.TrailingNonDigit` | test/shared/utils.ts:21 | The pair `7z` stores 7, because reading stops at the first non-digit. |
| `HexDecode.LeadingSpace` | test/shared/utils.ts:21 | The pair ` 7` stores 7, because leading white space is skipped. |
| `HexDecode.MinusSign` | test/shared/utils.ts:21 | The pair `-f` parses to -15, which the array stores as 241. |
| `HexDecode.PrefixOnly` | test/shared/utils.ts:21 | The pair `0x` is read as a bare prefix with no digit. That gives `NaN`, which is stored as 0. |
| `HexDecode.NoDigit` | test/shared/utils.ts:21 | A pair with no hex digit gives `NaN`, which is stored as 0. |

## Left out

- `getBlockData` (test/shared/utils.ts:3-11) only queries the chain provider for the block number and block timestamp. It is pure I/O and is not modelled.
- The marketplace contract that the rest of the test suite exercises (listing, postponing, discarding, buying, claiming rewards) is not part of this model. Its source is not among these files; only the hardhat/mocha tests that drive it over RPC exist here. test/shared/fixtures.ts (deployment and storage-slot setup) and test/example.ts (a placeholder test) are not part of this model either.
- Characters outside the Basic Multilingual Plane and lone surrogates are not modelled. JavaScript counts a character outside that plane as two UTF-16 code units in `length` and `substr`, and a JavaScript string may hold a lone surrogate code unit (U+D800 to U+DFFF, e.g. `"\uD800f"`, which decodes to `[0]`). A Dafny `char` is a Unicode scalar value: it cannot be a surrogate, and a `char` above U+FFFF has no counterpart among code units.
- JsParseInt.ParseInt16: returns the exact integer of the numeral, while JavaScript's `parseInt` returns a double, which loses precision for some values from 2^53 upward and is `Infinity` from 2^1024 upward (which ToUint8 stores as 0). The two can differ only for runs of 14 or more digits (`ParseIntExactInDouble` proves agreement up to 13 characters), never for the two-character strings the decoder passes.
- Arguments that are not strings are not modelled. The parameter is untyped, so a caller could pass any object with `length` and `substr`.
- Radices other than 16 are not modelled. `parseInt` is modelled only for radix 16, the one the decoder passes.
- The `-0` that `parseInt("-0", 16)` returns is folded into 0. The array stores both as 0.
