# Encoding helpers of the messaging client, in Dafny

The messaging client handles keys and messages through the browser's crypto
provider. Around those calls it implements a few small routines of its own,
and this project models them and proves properties about them:

- **The Base64 byte codec** (`base64ToUint8Array` and `bufferToBase64` in
  `src/utils/helpers.ts`, with a second copy in `src/utils/helpers.js`).
  - Bytes are turned into a binary string with `String.fromCharCode`.
  - Encoding then calls `btoa`, and decoding calls `atob` and maps each code unit back through `charCodeAt`.
  - `btoa` is the encoding of section 4 of RFC 4648: the standard alphabet with `=` padding.
  - `atob` is the WHATWG Infra "forgiving-base64 decode".
    - ASCII whitespace is ignored.
    - Padding may be left out.
    - A length of 1 mod 4 is rejected.
    - Any character outside the alphabet is rejected.
  - Both throw a DOMException named InvalidCharacterError.
- **The string wrappers** `base64encode`/`base64decode`, which are bare `btoa`/`atob`.
- **`cleanPem`**, which takes the textual SubjectPublicKeyInfo form of section 2 of RFC 7468 (label from its section 13) and does three things:
  1. It removes the first `-----BEGIN PUBLIC KEY-----`. The regular expression has no `g` flag, so only the first one goes.
  2. It removes the first `-----END PUBLIC KEY-----` of what remains.
  3. It removes every `\s` code unit.
- **`encodeUTF8`**, which is `new TextEncoder().encode`.
  - The JavaScript string becomes Unicode scalar values: a surrogate pair combines, and a lone surrogate becomes U+FFFD.
  - Each value is then written as section 3 of RFC 3629 prescribes.
- **`uuidv4`** of the store.
  - Every `0`, `1` and `8` of the template `10000000-1000-4000-8000-100000000000` is replaced by the hex digit `c ^ (r & (15 >> c / 4))`.
  - `c` is the digit's value and `r` is a random byte.
  - The result is a version-4 UUID in the sense of section 5.4 of RFC 9562.

A JavaScript string is modelled as a sequence of UTF-16 code units, `JsString`.
Dafny's own `char` cannot hold a lone surrogate, so `string` is not used for it.

The random bytes of `uuidv4` are a parameter of the model: 31 of them, one for
each replaced template character.

Throwing is modelled as the `Err` side of a `Result`.

The files:

| file | module | models |
|---|---|---|
| `js_core.dfy` | `JsCore` | code units, bytes, binary strings, `String.fromCharCode`, the `Uint8Array` conversion |
| `web_base64.dfy` | `WebBase64` | `btoa`, `atob`, RFC 4648 encoding, forgiving-base64 decode |
| `js_strings.dfy` | `JsStrings` | the two `String.prototype.replace` forms `cleanPem` uses, and subsequences |
| `text_encoder.dfy` | `TextEncoder` | `TextEncoder.encode`, plus a strict UTF-8 decoder as its reference |
| `helpers_ts.dfy` | `Helpers` | `src/utils/helpers.ts` |
| `helpers_js.dfy` | `HelpersJs` | `src/utils/helpers.js` |
| `store.dfy` | `Store` | `uuidv4` of `src/store.js` |

## Model

| member | source | states |
|---|---|---|
| JsCore.FromCharCodes | src/utils/helpers.ts:6 | `String.fromCharCode(...bytes)` gives one code unit per byte, equal to it, so the result is a binary string of the same length |
| JsCore.CharCodesToUint8 | src/utils/helpers.ts:2 | `Uint8Array.from(s, c => c.charCodeAt(0))` walks the string by code points, so it never has more elements than code units and its first element is the first code unit through ToUint8; on a binary string it yields exactly the bytes the code units stand for |
| JsCore.ToUint8 | src/utils/helpers.ts:2 | the `Uint8Array` element conversion leaves 0..255 unchanged and otherwise reduces modulo 256 |
| JsCore.Latin1RoundTrip | src/utils/helpers.ts:2-6 | mapping bytes to code units and back returns the bytes |
| JsCore.Latin1RoundTripString | src/utils/helpers.ts:59-63 | mapping a binary string to bytes and back returns the string |
| WebBase64.Digit | src/utils/helpers.ts:6 | every 6-bit value maps to a character of the Base64 alphabet |
| WebBase64.Value | src/utils/helpers.ts:2 | an alphabet character's value is in 0..63, and `Digit` maps it back to that character |
| WebBase64.ValueOfDigit | src/utils/helpers.ts:2-6 | `Value` inverts `Digit` on 0..63 |
| WebBase64.EncodeUnpadded | src/utils/helpers.ts:6 | the groups without padding: 4 characters per 3 bytes, plus 2 or 3 for a final partial group, all from the alphabet; its unused low bits are zero (`EncodeUnpaddedHasZeroPadBits`) |
| WebBase64.Encode | src/utils/helpers.ts:6 | the RFC 4648 text has length 4 * ceil(n / 3); every character is in the alphabet except the 0 to 2 trailing `=` |
| WebBase64.StripAsciiWhitespace | src/utils/helpers.ts:2 | the result has no ASCII whitespace, keeps every other character and adds none, and leaves whitespace-free text unchanged |
| WebBase64.StripAsciiWhitespaceAppend | src/utils/helpers.ts:2 | whitespace removal distributes over concatenation, so with the clauses above it deletes exactly the whitespace and keeps the rest in order |
| WebBase64.RemovePadding | src/utils/helpers.ts:2 | only when the length is a multiple of 4, removes a final `==` (two characters) or else a final `=` (one character), and nothing else |
| WebBase64.Significant | src/utils/helpers.ts:2 | steps 1 and 2 of forgiving-base64 decode: no whitespace is left, and of the whitespace-free text only trailing `=` are dropped, none unless its length is a multiple of 4 |
| WebBase64.DecodeSextets | src/utils/helpers.ts:2 | n alphabet characters (n not 1 mod 4) decode to floor(6n / 8) bytes; `EncodeOfDecodeSextets` pins their content |
| WebBase64.ForgivingDecode | src/utils/helpers.ts:2 | succeeds exactly when the input, once whitespace and padding are removed, has only alphabet characters and a length not 1 mod 4, and then decodes to 3/4 of that many bytes; `ForgivingDecodeReencodes` pins which bytes |
| WebBase64.Btoa | src/utils/helpers.ts:6 | `btoa` succeeds exactly on binary strings, and its output is a binary string of length 4 * ceil(n / 3) |
| WebBase64.Atob | src/utils/helpers.ts:2 | `atob` succeeds exactly when forgiving-base64 decode does, and its output is the binary string whose code units are the decoded bytes |
| WebBase64.GroupRoundTrip | src/utils/helpers.ts:1-7 | the four sextets of a 3-byte group are each below 64 and recombine into the three bytes |
| WebBase64.FullGroupRoundTrip | src/utils/helpers.ts:1-7 | the first four characters decode to the first three bytes, and the rest decodes on its own |
| WebBase64.FinalGroupRoundTrip | src/utils/helpers.ts:1-7 | a final single byte or pair decodes back from its 2 or 3 characters |
| WebBase64.DecodeSextetsOfEncodeUnpadded | src/utils/helpers.ts:1-7 | decoding the unpadded groups gives back the bytes, and their length is never 1 mod 4 |
| WebBase64.DecodeUnpadded | src/utils/helpers.ts:2 | text with its padding omitted still decodes to the original bytes |
| WebBase64.EncodedLength | src/utils/helpers.ts:6 | groups and padding together take 4 * ceil(n / 3) characters |
| WebBase64.RemovePaddingOfEncode | src/utils/helpers.ts:1-7 | the decoder's padding step removes exactly the padding the encoder added |
| WebBase64.SignificantOfAlphabet | src/utils/helpers.ts:2 | text of alphabet characters only has no whitespace or padding for the decoder to remove |
| WebBase64.GroupCharacters | src/utils/helpers.ts:1-7 | the first four characters of an encoding carry the sextets that recombine into the first three bytes |
| WebBase64.DecodeEncode | src/utils/helpers.ts:1-7 | forgiving-base64 decode of the RFC 4648 encoding of `b` is `b` |
| WebBase64.DecodeIgnoresWhitespace | src/utils/helpers.ts:2 | inserting or removing ASCII whitespace does not change what is decoded |
| WebBase64.DecodeRejectsLengthOneModFour | src/utils/helpers.ts:2 | input whose non-whitespace length is 1 mod 4 is rejected |
| WebBase64.DecodeRejectsForeignCharacter | src/utils/helpers.ts:2 | input holding a character that is not in the alphabet, not `=` and not whitespace is rejected |
| WebBase64.IsAsciiWhitespace | src/utils/helpers.ts:2 | the ASCII whitespace `atob` skips: TAB, LF, FF, CR and SPACE |
| WebBase64.ClearPadBits | src/utils/helpers.ts:1-7 | the canonical form of alphabet text: same length, still alphabet characters, with the 4 (length 2 mod 4) or 2 (length 3 mod 4) low bits of the last character cleared |
| WebBase64.HasZeroPadBits | src/utils/helpers.ts:1-7 | the bits the decoder discards from the last character are zero, as section 3.5 of RFC 4648 requires of an encoder |
| WebBase64.ClearPadBitsIdentity | src/utils/helpers.ts:1-7 | clearing the pad bits changes nothing exactly when they are already zero |
| WebBase64.EncodeOfDecodeSextets | src/utils/helpers.ts:1-7 | encoding what alphabet text decodes to gives that text back with its discarded bits cleared, so decoding loses exactly those bits |
| WebBase64.EncodeOfDecodeGroup | src/utils/helpers.ts:1-7 | a full leading group of four characters decodes to three bytes that encode back to the same four characters |
| WebBase64.DecodeGroupParts | src/utils/helpers.ts:2 | the first four characters decode to the three bytes recombined from their sextets, and the rest decodes on its own |
| WebBase64.EncodeGroup | src/utils/helpers.ts:6 | three bytes recombined from four sextets encode to the characters of those sextets |
| WebBase64.EncodeUnpaddedGroup | src/utils/helpers.ts:6 | with three or more bytes, the encoding starts with the four characters of the first three bytes and continues with the encoding of the rest |
| WebBase64.FirstFour | src/utils/helpers.ts:1-7 | each alphabet character is the digit of its own value |
| WebBase64.EncodeOfDecodePair | src/utils/helpers.ts:1-7 | three final characters decode to two bytes that encode back to them with the low 2 bits of the last cleared |
| WebBase64.EncodeOfDecodeSingle | src/utils/helpers.ts:1-7 | two final characters decode to one byte that encodes back to them with the low 4 bits of the last cleared |
| WebBase64.ClearPadBitsOfFinal | src/utils/helpers.ts:1-7 | on a final group of 2 or 3 characters, clearing the pad bits rewrites only the last character |
| WebBase64.SplitSextets | src/utils/helpers.ts:1-7 | re-splitting the three bytes recombined from four sextets gives back each sextet, and the low bits of the first and second byte are the high bits of the next sextet |
| WebBase64.ClearPadBitsOfGroup | src/utils/helpers.ts:1-7 | clearing the pad bits leaves every full leading group unchanged |
| WebBase64.EncodeUnpaddedHasZeroPadBits | src/utils/helpers.ts:6 | the encoder always leaves the discarded bits zero |
| WebBase64.ForgivingDecodeReencodes | src/utils/helpers.ts:1-7 | whatever `atob` decodes, encoding it again gives the significant input characters with their discarded bits cleared |
| WebBase64.UnpaddedLengthMod | src/utils/helpers.ts:6 | the unpadded encoding of n bytes has length 0, 2 or 3 mod 4, never 1 |
| WebBase64.AtobBtoa | src/utils/helpers.ts:58-64 | `atob(btoa(s)) == s` for every binary string |
| JsStrings.IsRegexSpace | src/utils/helpers.ts:13 | `\s` matches the WhiteSpace and LineTerminator code units of ECMAScript: TAB, LF, VT, FF, CR, SPACE, NBSP, the Unicode space separators, LS, PS and BOM |
| JsStrings.RemoveRegexSpace | src/utils/helpers.ts:13 | `replace(/\s+/g, "")` leaves no `\s` code unit, never lengthens, and leaves text without whitespace unchanged |
| JsStrings.FindFrom | src/utils/helpers.ts:11-12 | returns the leftmost occurrence at or after `from`, or None when there is none |
| JsStrings.RemoveFirst | src/utils/helpers.ts:11-12 | a regex without `g` removes the leftmost occurrence of the pattern, keeps any later one, and returns the text unchanged without one |
| JsStrings.SubsequenceOfSelf | src/utils/helpers.ts:9-14 | every string is a subsequence of itself |
| JsStrings.SubsequenceOfSuffix | src/utils/helpers.ts:9-14 | a subsequence of `z` is a subsequence of `y + z` |
| JsStrings.SubsequenceCons | src/utils/helpers.ts:9-14 | a common prefix preserves the subsequence relation |
| JsStrings.SubsequenceOfDeletion | src/utils/helpers.ts:11-12 | deleting a middle part leaves a subsequence |
| JsStrings.SubsequenceTransitive | src/utils/helpers.ts:9-14 | the subsequence relation is transitive |
| JsStrings.RemoveRegexSpaceIsSubsequence | src/utils/helpers.ts:13 | removing whitespace leaves a subsequence |
| JsStrings.RemoveRegexSpaceAppend | src/utils/helpers.ts:13 | removing whitespace distributes over concatenation |
| JsStrings.RemoveFirstIsSubsequence | src/utils/helpers.ts:11-12 | removing the first occurrence leaves a subsequence |
| JsStrings.RemoveFirstOfPrefix | src/utils/helpers.ts:11 | a marker at the very start is the occurrence removed |
| JsStrings.RemoveFirstAfter | src/utils/helpers.ts:12 | when the text before a marker never holds the marker's first character, that marker is the occurrence removed |
| JsStrings.RemoveRegexSpaceEmpty | src/utils/helpers.ts:13 | whitespace removal leaves nothing exactly when every code unit is `\s` |
| JsStrings.NoOccurrenceWithoutSpace | src/utils/helpers.ts:11-13 | a pattern containing whitespace never occurs in whitespace-free text |
| TextEncoder.FirstUnits | src/utils/helpers.ts:67-68 | the first scalar value takes two code units exactly when the string starts with a surrogate pair, otherwise one |
| TextEncoder.FirstValue | src/utils/helpers.ts:67-68 | the first scalar value of a string is always a Unicode scalar value; which one is pinned by `ScalarValuesOfUtf16` and `Utf16OfScalarValues` |
| TextEncoder.ScalarValues | src/utils/helpers.ts:67-68 | the USVString conversion yields only Unicode scalar values, at most one per code unit |
| TextEncoder.Utf16Of | src/utils/helpers.ts:67-68 | the UTF-16 form of one scalar value: one code unit below U+10000, two otherwise |
| TextEncoder.Utf16 | src/utils/helpers.ts:67-68 | the UTF-16 form of scalar values: one or two code units each |
| TextEncoder.ScalarValuesOfUtf16 | src/utils/helpers.ts:67-68 | the conversion to scalar values inverts UTF-16: the code units of any scalar values convert back to exactly those values |
| TextEncoder.FirstOfUtf16Of | src/utils/helpers.ts:67-68 | a scalar value's code units are the first step of the conversion, whatever follows |
| TextEncoder.Utf16OfScalarValues | src/utils/helpers.ts:67-68 | a string with no lone surrogate is the UTF-16 form of its scalar values, so the conversion loses nothing |
| TextEncoder.WellFormedRest | src/utils/helpers.ts:67-68 | after the first step a string with no lone surrogate still has none, and a one-unit first step is not a surrogate |
| TextEncoder.Utf16OfFirst | src/utils/helpers.ts:67-68 | a surrogate pair combines to the value whose UTF-16 form is that pair, and a non-surrogate unit is its own value |
| TextEncoder.EncodeUtf16 | src/utils/helpers.ts:66-69 | `encodeUTF8` of the UTF-16 form of scalar values is their UTF-8 form, supplementary characters included |
| TextEncoder.EncodeScalar | src/utils/helpers.ts:67-68 | one scalar value takes 1 byte exactly below U+0080, at most 3 exactly below U+10000, and at most 4 always |
| TextEncoder.EncodeScalars | src/utils/helpers.ts:67-68 | scalar values are written one after another, at most 4 bytes each; `DecodeEncodeScalars` pins the content |
| TextEncoder.Encode | src/utils/helpers.ts:68 | `encoder.encode(string)` writes at most 4 bytes per scalar value; `EncodeIsWellFormed` pins the content |
| TextEncoder.DecodeFirst | src/utils/helpers.ts:67-68 | the strict reference decoder reads only scalar values and never reads past the input |
| TextEncoder.Decode | src/utils/helpers.ts:67-68 | whatever the strict decoder accepts is a sequence of scalar values |
| TextEncoder.DecodeFirstOfEncodeScalar | src/utils/helpers.ts:67-68 | each scalar value's bytes decode back to it, whatever follows |
| TextEncoder.DecodeEncodeScalars | src/utils/helpers.ts:67-68 | encoding a sequence of scalar values gives well-formed UTF-8 that decodes back to the sequence |
| TextEncoder.EncodeIsWellFormed | src/utils/helpers.ts:66-69 | the encoder's output is well-formed UTF-8 whose decoding is the string's scalar values |
| TextEncoder.EncodeLengthBound | src/utils/helpers.ts:66-69 | at most 3 bytes per UTF-16 code unit |
| TextEncoder.EncodeAscii | src/utils/helpers.ts:66-69 | ASCII text encodes to one byte per character, equal to its code |
| TextEncoder.ScalarValuesAppend | src/utils/helpers.ts:67-68 | the conversion to scalar values distributes over concatenation unless a surrogate pair is cut |
| TextEncoder.FirstOfAppend | src/utils/helpers.ts:67-68 | appending text where no pair is cut leaves the first scalar value unchanged |
| TextEncoder.EncodeScalarsAppend | src/utils/helpers.ts:67-68 | encoding scalar values distributes over concatenation |
| TextEncoder.EncodeAppend | src/utils/helpers.ts:66-69 | encoding a string distributes over concatenation unless a surrogate pair is cut |
| TextEncoder.EncodeLoneSurrogate | src/utils/helpers.ts:66-69 | a lone surrogate is written as EF BF BD (U+FFFD), and the text around it is encoded as it would be on its own |
| Helpers.Base64ToUint8Array | src/utils/helpers.ts:1-3 | succeeds exactly when forgiving-base64 decode does and then returns exactly its bytes (3/4 as many as significant characters), and otherwise throws InvalidCharacterError |
| Helpers.BufferToBase64 | src/utils/helpers.ts:5-7 | never throws; the result is the RFC 4648 encoding of the bytes, has length 4 * ceil(n / 3), and uses alphabet characters followed by 0 to 2 `=` |
| Helpers.Base64RoundTrip | src/utils/helpers.ts:1-7 | `base64ToUint8Array(bufferToBase64(b)) == b` for every byte sequence |
| Helpers.BufferToBase64Padding | src/utils/helpers.ts:5-7 | a final single byte ends in `==` and a final pair in `=`, with an alphabet character just before; with full groups no `=` appears |
| Helpers.Base64ToUint8ArrayRejectsLength | src/utils/helpers.ts:1-3 | throws InvalidCharacterError on a non-whitespace length of 1 mod 4 |
| Helpers.Base64ToUint8ArrayRejectsCharacter | src/utils/helpers.ts:1-3 | throws InvalidCharacterError on a character outside the alphabet, `=` and whitespace |
| Helpers.Base64ToUint8ArrayForgives | src/utils/helpers.ts:1-3 | unpadded text with whitespace inserted anywhere still decodes to the bytes |
| Helpers.CleanPem | src/utils/helpers.ts:9-14 | the result has no whitespace code unit and is a subsequence of the input |
| Helpers.CleanPemKeepsCleanText | src/utils/helpers.ts:9-14 | text without whitespace, and hence without either marker, is returned unchanged |
| Helpers.CleanPemIdempotent | src/utils/helpers.ts:9-14 | `cleanPem(cleanPem(p)) == cleanPem(p)` |
| Helpers.EndMarkerNotInBeginMarker | src/utils/helpers.ts:11-12 | the END marker does not occur inside the BEGIN marker |
| Helpers.SqueezedBeginMarker | src/utils/helpers.ts:11-13 | whitespace removal turns the BEGIN marker into `-----BEGINPUBLICKEY-----` |
| Helpers.BeginMarkerWords | src/utils/helpers.ts:11 | the BEGIN marker is three whitespace-free words separated by single spaces |
| Helpers.SqueezeTwoSpaces | src/utils/helpers.ts:13 | three whitespace-free words joined by single spaces lose exactly the spaces |
| Helpers.CleanPemRemovesFirstMarkerOnly | src/utils/helpers.ts:10-13 | of two leading BEGIN markers only the first is removed; the second survives with its spaces squeezed out, followed by any text without `-` with its whitespace removed |
| Helpers.NoEndMarkerAfterBegin | src/utils/helpers.ts:12 | the END marker is not found in a BEGIN marker followed by text without `-`, so the second removal leaves that text alone |
| Helpers.RemoveMarkers | src/utils/helpers.ts:11-12 | when the text before the second marker never holds the code unit both markers start with, the two removals take exactly the two markers and keep the rest in order |
| Helpers.CleanPemOfWrappedBody | src/utils/helpers.ts:9-14 | a document with only whitespace around the markers and no `-` in its body is cleaned to its body without whitespace |
| Helpers.CleanPemOfDocument | src/utils/helpers.ts:9-14 | for a PEM document with no `-` before the BEGIN marker or in its body, the result is the text before, between and after the markers with its whitespace removed |
| Helpers.ImportedPemDecodes | src/utils/keyManager.ts:16-19 | a PEM document whose body is the Base64 of `der`, wrapped in any way and surrounded by whitespace only, is cleaned and decoded back to `der` |
| Helpers.BeginMarker | src/utils/helpers.ts:11 | the literal `-----BEGIN PUBLIC KEY-----` the first removal looks for |
| Helpers.EndMarker | src/utils/helpers.ts:12 | the literal `-----END PUBLIC KEY-----` the second removal looks for |
| Helpers.Base64Encode | src/utils/helpers.ts:58-60 | `base64encode` throws InvalidCharacterError exactly when a code unit exceeds 0xFF; otherwise it returns the RFC 4648 encoding of the bytes |
| Helpers.Base64Decode | src/utils/helpers.ts:62-64 | `base64decode` succeeds exactly when forgiving-base64 decode does, returning a binary string of the decoded bytes |
| Helpers.Base64StringRoundTrip | src/utils/helpers.ts:58-64 | `base64decode(base64encode(s)) == s` for every string whose code units are at most 0xFF |
| Helpers.Base64EncodeRejectsWideUnit | src/utils/helpers.ts:58-60 | `base64encode` throws on any code unit above 0xFF |
| Helpers.EncodeUTF8 | src/utils/helpers.ts:66-69 | the output is well-formed UTF-8 that decodes to the string's scalar values, at most 3 bytes per code unit |
| HelpersJs.Base64ToUint8Array | src/utils/helpers.js:1-3 | succeeds exactly when `atob` does, and each element equals the corresponding decoded code unit, so it lies in 0..255 |
| HelpersJs.BufferToBase64 | src/utils/helpers.js:5-7 | the result has length 4 * ceil(n / 3) and only alphabet characters and `=` |
| HelpersJs.CopiesAgree | src/utils/helpers.js:1-7 | the JavaScript copy computes what the TypeScript functions compute, on every input |
| HelpersJs.RoundTrip | src/utils/helpers.js:1-7 | `base64ToUint8Array(bufferToBase64(b)) == b` for every byte sequence |
| HelpersJs.TrailingGroupPadding | src/utils/helpers.js:5-7 | a trailing single byte gives `==`, a trailing pair gives `=`, and full groups give no padding |
| Store.Nibble | src/store.js:14 | the callback's value `c ^ (r & (15 >> c / 4))` is always a single hex digit |
| Store.HexDigit | src/store.js:14 | `toString(16)` of a digit is a lowercase hex character whose value is the digit |
| Store.HexValue | src/store.js:14 | a lowercase hex character's value is below 16 |
| Store.Rewrite | src/store.js:13-14 | `replace(/[018]/g, …)` keeps the length of the template |
| Store.RewriteAt | src/store.js:13-14 | the rewrite copies every character other than `0`, `1`, `8`; the k-th of those becomes the callback's digit for the k-th random byte |
| Store.RewriteCharShape | src/store.js:13-14 | at any position the rewrite leaves the template character, a lowercase hex digit in place of `0`/`1`/`8`, and one of `8 9 a b` in place of `8` |
| Store.RewriteIsUuid | src/store.js:13-14 | any template with the 8-4-4-4-12 layout of `uuidv4`'s rewrites to a version-4 UUID, whatever the random bytes |
| Store.RewriteTemplateIsUuid | src/store.js:12-16 | the rewrite of `uuidv4`'s own template is a version-4 UUID for every 31 random bytes |
| Store.Uuidv4 | src/store.js:12-16 | the result is 36 characters long, with `-` at 8, 13, 18 and 23, `4` at 14, one of `8 9 a b` at 19, and a lowercase hex digit everywhere else |
| Store.Template | src/store.js:13 | the template literal `10000000-1000-4000-8000-100000000000` |
| Store.IsRandomSlot | src/store.js:13 | the characters `/[018]/` matches, which are the ones replaced |
| Store.TemplateShape | src/store.js:13 | the template has hyphens at 8, 13, 18, 23, `4` at 14, `8` at 19, and `0` or `1` elsewhere |
| Store.SlotsFromVariant | src/store.js:13 | 16 random bytes are drawn from the variant digit on |
| Store.SlotCountAppend | src/store.js:13 | slot counts add up over concatenation |
| Store.SlotCountAllSlots | src/store.js:13 | a run of slots counts its length |
| Store.TemplateSlots | src/store.js:13-14 | exactly 31 random bytes are drawn |
| Store.NibbleValues | src/store.js:14 | the digit is the byte's low four bits for `0`, the same with the lowest bit flipped for `1`, and 8 plus the low two bits for `8` |
| Store.Replacement | src/store.js:14 | the callback returns a lowercase hex digit |
| Store.ReplacementShape | src/store.js:14 | every replacement is a lowercase hex digit, and the one for `8` is `8`, `9`, `a` or `b` |
| Store.SlotsBeforeVariant | src/store.js:13 | 15 random bytes are drawn before the variant digit |
| Store.VariantDigit | src/store.js:13-14 | the variant digit is 8 plus the two low bits of the 16th random byte |
| Store.Witness | src/store.js:14 | for every digit allowed at a slot there is a byte that makes the callback produce it |
| Store.Uuidv4Surjective | src/store.js:12-16 | every lowercase version-4 UUID is the output for some 31 random bytes |
| Store.TemplateFits | src/store.js:13-14 | each character of a version-4 UUID is one the rewrite can produce at that position of the template |
| Store.RewriteReaches | src/store.js:13-14 | for a target that fits a template character by character, some random bytes, one per slot, make the rewrite produce it |
| Store.RewriteChoose | src/store.js:13-14 | rewriting with the chosen bytes yields exactly the target text |
| Store.HexDigitOfValue | src/store.js:14 | `HexDigit` inverts `HexValue` |

## Left out

- The asynchronous crypto helpers of `src/utils/helpers.ts` (lines 16-56), and all of `src/utils/keyManager.ts`, `src/utils/passwordCrypto.ts` and `src/utils/flows.ts`: they are calls into the browser's WebCrypto provider (RSA-OAEP, RSASSA-PKCS1-v1_5, AES-GCM, PBKDF2), whose behaviour is not in the repository. Only the two lines of `importPublicKey` that use `cleanPem` and `base64ToUint8Array` appear, in `Helpers.ImportedPemDecodes`.
- `src/utils/messageCrypto.ts` and `src/utils/signature.ts`: declarations without bodies.
- The rest of `src/store.js`: the reactive state, `clearAll`/`clearMessages` (browser storage I/O) and `baseURL`. `src/router.js` is routing configuration.
- `crypto.getRandomValues`: its bytes are the `random` parameter of `Store.Uuidv4`, so the model says nothing about their distribution.
- `Store.Uuidv4`: assumes one random byte per replaced character, drawn left to right. The callback's order of calls and the bit operations on the callback's number are modelled on bytes (`bv8`), which covers the values `+c` takes.
- `Helpers.BufferToBase64`: the `RangeError` that spreading a very large buffer into `String.fromCharCode` raises is not modelled; the model accepts any length.
- `WebBase64.DecodeSextets`: forgiving-base64 decode works group by group rather than with the bit buffer of the WHATWG algorithm; the bytes produced are the same, including the discarding of a final 4 or 2 leftover bits.
- `JsCore.CharCodesToUint8`: its contract fixes every element only on binary strings, the only input `atob` hands it at `src/utils/helpers.ts:2`; on other strings it states the element-count bound and the first element, while the body follows the code-point walk of `Uint8Array.from` (a surrogate pair is one element, the ToUint8 of its high surrogate).
- `JsCore.ToUint8`: modelled only for the integral, non-negative values `charCodeAt` returns, not for NaN, fractions or negative numbers.
- An `ArrayBuffer` argument of `bufferToBase64` is modelled as its byte sequence; the `new Uint8Array(buffer)` view adds nothing else.
