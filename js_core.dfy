/** Values of the JavaScript platform that the helpers work on.

    A JavaScript string is a sequence of UTF-16 code units (each 0..0xFFFF,
    lone surrogates included), so it is modelled as `JsString`, not as Dafny's
    `string`, whose characters exclude the surrogate range. An element of a
    `Uint8Array` is a `byte`. The DOM exception that `btoa` and `atob` throw
    becomes the error side of a `Result`.
 */
module JsCore {

  type byte = b: int | 0 <= b < 0x100
  type CodeUnit = u: int | 0 <= u < 0x1_0000
  type JsString = seq<CodeUnit>

  /** The exception `btoa`/`atob` raise: a DOMException named "InvalidCharacterError". */
  datatype DomException = InvalidCharacterError

  datatype Result<+T> = Ok(value: T) | Err(error: DomException)

  datatype Option<+T> = None | Some(value: T)

  predicate IsAscii(s: string) {
    forall i | 0 <= i < |s| :: s[i] as int < 0x80
  }

  /** The code units of an ASCII literal (for ASCII text UTF-16 and the character codes coincide). */
  function Ascii(s: string): (r: JsString)
    requires IsAscii(s)
    ensures |r| == |s|
    ensures forall i | 0 <= i < |s| :: r[i] == s[i] as int
  {
    seq(|s|, i requires 0 <= i < |s| => s[i] as int)
  }

  /** The code units of concatenated ASCII text are the concatenated code units. */
  lemma AsciiAppend(a: string, b: string)
    requires IsAscii(a) && IsAscii(b)
    ensures IsAscii(a + b) && Ascii(a + b) == Ascii(a) + Ascii(b)
  {
    assert forall i | 0 <= i < |a + b| :: (a + b)[i] == if i < |a| then a[i] else b[i - |a|];
  }

  /** A "binary string": every code unit is at most 0xFF, i.e. it stands for one byte. */
  predicate IsLatin1(s: JsString) {
    forall i | 0 <= i < |s| :: s[i] < 0x100
  }

  /** `String.fromCharCode(...bytes)`: one code unit per byte, equal to it. */
  function FromCharCodes(bytes: seq<byte>): (r: JsString)
    ensures |r| == |bytes| && IsLatin1(r)
    ensures forall i | 0 <= i < |bytes| :: r[i] == bytes[i]
  {
    seq(|bytes|, i requires 0 <= i < |bytes| => bytes[i] as CodeUnit)
  }

  /** The byte a binary string's code unit stands for. */
  function Latin1Bytes(s: JsString): (r: seq<byte>)
    requires IsLatin1(s)
    ensures |r| == |s|
    ensures forall i | 0 <= i < |s| :: r[i] == s[i]
  {
    seq(|s|, i requires 0 <= i < |s| => s[i] as byte)
  }

  /** ToUint8, the conversion `Uint8Array.from` applies to each mapped value
      (for the integral values met here: reduction modulo 256). */
  function ToUint8(x: int): (r: byte)
    ensures 0 <= x < 0x100 ==> r == x
    ensures (r - x) % 0x100 == 0
  {
    x % 0x100
  }

  predicate IsHighSurrogate(u: int) { 0xD800 <= u <= 0xDBFF }
  predicate IsLowSurrogate(u: int) { 0xDC00 <= u <= 0xDFFF }

  /** Whether `s` starts with a surrogate pair, i.e. with a code point of two code units. */
  predicate StartsWithPair(s: JsString) {
    |s| >= 2 && IsHighSurrogate(s[0]) && IsLowSurrogate(s[1])
  }

  /** `Uint8Array.from(s, c => c.charCodeAt(0))`. A string is iterated by code
      points, so a surrogate pair is a single element, the ToUint8 of its high
      surrogate; every other code unit is an element of its own. On a binary
      string this is one element per code unit, equal to it. */
  function CharCodesToUint8(s: JsString): (r: seq<byte>)
    ensures |r| <= |s|
    ensures s != [] ==> r != [] && r[0] == ToUint8(s[0])
    ensures IsLatin1(s) ==> r == Latin1Bytes(s)
    decreases |s|
  {
    if s == [] then []
    else
      var rest := s[if StartsWithPair(s) then 2 else 1..];
      assert IsLatin1(s) ==> IsLatin1(rest) && Latin1Bytes(s) == [s[0] as byte] + Latin1Bytes(rest);
      [ToUint8(s[0])] + CharCodesToUint8(rest)
  }

  lemma {:induction false} Latin1RoundTrip(bytes: seq<byte>)
    ensures Latin1Bytes(FromCharCodes(bytes)) == bytes
  {
    var r := Latin1Bytes(FromCharCodes(bytes));
    assert |r| == |bytes|;
    forall i | 0 <= i < |bytes| ensures r[i] == bytes[i] { }
  }

  lemma {:induction false} Latin1RoundTripString(s: JsString)
    requires IsLatin1(s)
    ensures FromCharCodes(Latin1Bytes(s)) == s
  {
    var r := FromCharCodes(Latin1Bytes(s));
    assert |r| == |s|;
    forall i | 0 <= i < |s| ensures r[i] == s[i] { }
  }
}
