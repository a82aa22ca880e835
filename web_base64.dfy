/** The platform's `btoa` and `atob`, which the helpers call.

    `btoa` is the Base64 encoding of section 4 of RFC 4648 (standard alphabet,
    `=` padding) applied to a binary string; `atob` is the WHATWG Infra
    "forgiving-base64 decode": ASCII whitespace is ignored, padding may be
    omitted, and a length of 1 mod 4 or a character outside the alphabet is
    rejected. Both throw an InvalidCharacterError DOMException on bad input.
 */
module WebBase64 {
  import opened JsCore

  /** `=`, the padding character. */
  const Pad: CodeUnit := 0x3D

  /** Table 1 of RFC 4648: the character for the 6-bit value `v`. */
  function Digit(v: int): (c: CodeUnit)
    requires 0 <= v < 64
    ensures IsAlphabet(c)
  {
    if v < 26 then 0x41 + v              // 'A'..'Z'
    else if v < 52 then 0x61 + (v - 26)  // 'a'..'z'
    else if v < 62 then 0x30 + (v - 52)  // '0'..'9'
    else if v == 62 then 0x2B            // '+'
    else 0x2F                            // '/'
  }

  /** `+`, `/` and the ASCII alphanumerics: the 64 characters of the alphabet. */
  predicate IsAlphabet(c: CodeUnit) {
    || 0x41 <= c <= 0x5A
    || 0x61 <= c <= 0x7A
    || 0x30 <= c <= 0x39
    || c == 0x2B
    || c == 0x2F
  }

  /** The 6-bit value an alphabet character stands for. */
  function Value(c: CodeUnit): (v: int)
    requires IsAlphabet(c)
    ensures 0 <= v < 64 && Digit(v) == c
  {
    if 0x41 <= c <= 0x5A then c - 0x41
    else if 0x61 <= c <= 0x7A then c - 0x61 + 26
    else if 0x30 <= c <= 0x39 then c - 0x30 + 52
    else if c == 0x2B then 62
    else 63
  }

  predicate AllAlphabet(s: JsString) {
    forall i | 0 <= i < |s| :: IsAlphabet(s[i])
  }

  // ---------------------------------------------------------------------------
  // Encoding (section 4 of RFC 4648)
  // ---------------------------------------------------------------------------

  /** Characters produced for `n` input bytes before padding: four per full
      24-bit group, then two for a final single byte or three for a final pair. */
  function UnpaddedLength(n: nat): nat {
    4 * (n / 3) + (if n % 3 == 0 then 0 else n % 3 + 1)
  }

  /** Number of `=` characters that close the encoding of `n` bytes. */
  function PadCount(n: nat): nat {
    if n % 3 == 1 then 2 else if n % 3 == 2 then 1 else 0
  }

  /** The encoded groups without their padding. */
  function EncodeUnpadded(b: seq<byte>): (r: JsString)
    ensures |r| == UnpaddedLength(|b|)
    ensures AllAlphabet(r)
    decreases |b|
  {
    if |b| >= 3 then
      [Digit(b[0] / 4), Digit(b[0] % 4 * 16 + b[1] / 16), Digit(b[1] % 16 * 4 + b[2] / 64), Digit(b[2] % 64)]
      + EncodeUnpadded(b[3..])
    else if |b| == 2 then
      [Digit(b[0] / 4), Digit(b[0] % 4 * 16 + b[1] / 16), Digit(b[1] % 16 * 4)]
    else if |b| == 1 then
      [Digit(b[0] / 4), Digit(b[0] % 4 * 16)]
    else
      []
  }

  /** The Base64 encoding of `b`: the groups, then `==` after a final single
      byte or `=` after a final pair. Its length is 4 * ceil(|b| / 3); every
      character is in the alphabet except the 0 to 2 trailing `=`. */
  function Encode(b: seq<byte>): (r: JsString)
    ensures |r| == 4 * ((|b| + 2) / 3) && |r| % 4 == 0
    ensures PadCount(|b|) <= 2 && |r| == UnpaddedLength(|b|) + PadCount(|b|)
    ensures forall i | 0 <= i < |r| - PadCount(|b|) :: IsAlphabet(r[i])
    ensures forall i | |r| - PadCount(|b|) <= i < |r| :: r[i] == Pad
  {
    EncodedLength(|b|);
    EncodeUnpadded(b) + (if |b| % 3 == 1 then [Pad, Pad] else if |b| % 3 == 2 then [Pad] else [])
  }

  /** Groups and padding together take 4 * ceil(n / 3) characters. */
  lemma EncodedLength(n: nat)
    ensures UnpaddedLength(n) + PadCount(n) == 4 * ((n + 2) / 3)
  {
    var q, r := n / 3, n % 3;
    assert n == 3 * q + r;
    assert (n + 2) / 3 == if r == 0 then q else q + 1;
  }

  // ---------------------------------------------------------------------------
  // Forgiving-base64 decode (WHATWG Infra)
  // ---------------------------------------------------------------------------

  /** ASCII whitespace: TAB, LF, FF, CR and SPACE. */
  predicate IsAsciiWhitespace(c: CodeUnit) {
    c == 0x09 || c == 0x0A || c == 0x0C || c == 0x0D || c == 0x20
  }

  predicate NoAsciiWhitespace(s: JsString) {
    forall i | 0 <= i < |s| :: !IsAsciiWhitespace(s[i])
  }

  /** Step 1: remove all ASCII whitespace, keeping everything else in order. */
  function StripAsciiWhitespace(s: JsString): (r: JsString)
    ensures |r| <= |s| && NoAsciiWhitespace(r)
    ensures forall c | c in r :: c in s
    ensures forall i | 0 <= i < |s| && !IsAsciiWhitespace(s[i]) :: s[i] in r
    ensures NoAsciiWhitespace(s) ==> r == s
    decreases |s|
  {
    if s == [] then []
    else if IsAsciiWhitespace(s[0]) then StripAsciiWhitespace(s[1..])
    else [s[0]] + StripAsciiWhitespace(s[1..])
  }

  /** Whitespace removal distributes over concatenation; with the clauses above
      this pins it down as deleting exactly the whitespace, in order. */
  lemma {:induction false} StripAsciiWhitespaceAppend(s: JsString, t: JsString)
    ensures StripAsciiWhitespace(s + t) == StripAsciiWhitespace(s) + StripAsciiWhitespace(t)
    decreases |s|
  {
    if s != [] {
      assert (s + t)[0] == s[0] && (s + t)[1..] == s[1..] + t;
      StripAsciiWhitespaceAppend(s[1..], t);
    } else {
      assert s + t == t;
    }
  }

  /** Step 2: when the length is a multiple of 4, drop a final `==` or `=`. */
  function RemovePadding(d: JsString): (r: JsString)
    ensures r <= d && |d| - 2 <= |r|
    ensures forall i | |r| <= i < |d| :: d[i] == Pad
    ensures |d| % 4 != 0 ==> r == d
    ensures |d| % 4 == 0 && |d| >= 1 && d[|d| - 1] == Pad ==> |r| < |d|
    ensures |d| % 4 == 0 && |d| >= 2 && d[|d| - 2..] == [Pad, Pad] ==> |r| == |d| - 2
  {
    if |d| % 4 == 0 && |d| >= 2 && d[|d| - 2] == Pad && d[|d| - 1] == Pad then d[..|d| - 2]
    else if |d| % 4 == 0 && |d| >= 1 && d[|d| - 1] == Pad then d[..|d| - 1]
    else d
  }

  /** Step 5: six bits per character, a byte per eight bits; a final 12 or 18
      bits lose their last 4 or 2 bits. The result has floor(6 * |d| / 8) bytes. */
  function DecodeSextets(d: JsString): (r: seq<byte>)
    requires AllAlphabet(d) && |d| % 4 != 1
    ensures |r| == |d| * 3 / 4
    decreases |d|
  {
    if |d| >= 4 then
      var v0, v1, v2, v3 := Value(d[0]), Value(d[1]), Value(d[2]), Value(d[3]);
      [FirstByte(v0, v1), SecondByte(v1, v2), ThirdByte(v2, v3)] + DecodeSextets(d[4..])
    else if |d| == 3 then
      var v0, v1, v2 := Value(d[0]), Value(d[1]), Value(d[2]);
      [FirstByte(v0, v1), SecondByte(v1, v2)]
    else if |d| == 2 then
      [FirstByte(Value(d[0]), Value(d[1]))]
    else
      []
  }

  /** The byte made of the six bits of `v0` and the high two of `v1`. */
  function FirstByte(v0: int, v1: int): byte
    requires 0 <= v0 < 64 && 0 <= v1 < 64
  {
    v0 * 4 + v1 / 16
  }

  /** The byte made of the low four bits of `v1` and the high four of `v2`. */
  function SecondByte(v1: int, v2: int): byte
    requires 0 <= v1 < 64 && 0 <= v2 < 64
  {
    v1 % 16 * 16 + v2 / 4
  }

  /** The byte made of the low two bits of `v2` and the six bits of `v3`. */
  function ThirdByte(v2: int, v3: int): byte
    requires 0 <= v2 < 64 && 0 <= v3 < 64
  {
    v2 % 4 * 64 + v3
  }

  /** The text forgiving-base64 decode actually decodes: `s` without whitespace and padding. */
  function Significant(s: JsString): (r: JsString)
    ensures NoAsciiWhitespace(r) && |r| <= |s|
    ensures |StripAsciiWhitespace(s)| % 4 != 0 ==> r == StripAsciiWhitespace(s)
    ensures r <= StripAsciiWhitespace(s)
    ensures forall i | |r| <= i < |StripAsciiWhitespace(s)| :: StripAsciiWhitespace(s)[i] == Pad
  {
    RemovePadding(StripAsciiWhitespace(s))
  }

  /** Forgiving-base64 decode: failure (None) when, after steps 1 and 2, the
      length is 1 mod 4 or a character outside the alphabet remains. */
  function ForgivingDecode(s: JsString): (r: Option<seq<byte>>)
    ensures r.Some? ==> |r.value| == |Significant(s)| * 3 / 4
    ensures r.Some? <==> |Significant(s)| % 4 != 1 && AllAlphabet(Significant(s))
  {
    var d := Significant(s);
    if |d| % 4 == 1 then None
    else if !AllAlphabet(d) then None
    else Some(DecodeSextets(d))
  }

  // ---------------------------------------------------------------------------
  // btoa and atob
  // ---------------------------------------------------------------------------

  /** `btoa(s)`: InvalidCharacterError when a code unit exceeds 0xFF, otherwise
      the Base64 encoding of the bytes the code units stand for. */
  function Btoa(s: JsString): (r: Result<JsString>)
    ensures r.Ok? <==> IsLatin1(s)
    ensures r.Ok? ==> |r.value| == 4 * ((|s| + 2) / 3) && IsLatin1(r.value)
  {
    if !IsLatin1(s) then Err(InvalidCharacterError)
    else Ok(Encode(Latin1Bytes(s)))
  }

  /** `atob(s)`: the decoded bytes as a binary string, or InvalidCharacterError
      when forgiving-base64 decode fails. */
  function Atob(s: JsString): (r: Result<JsString>)
    ensures r.Ok? <==> ForgivingDecode(s).Some?
    ensures r.Ok? ==> IsLatin1(r.value) && |r.value| == |Significant(s)| * 3 / 4
    ensures r.Ok? ==> Some(Latin1Bytes(r.value)) == ForgivingDecode(s)
  {
    match ForgivingDecode(s)
    case None => Err(InvalidCharacterError)
    case Some(bytes) =>
      Latin1RoundTrip(bytes);
      Ok(FromCharCodes(bytes))
  }

  // ---------------------------------------------------------------------------
  // Properties
  // ---------------------------------------------------------------------------

  lemma ValueOfDigit(v: int)
    requires 0 <= v < 64
    ensures Value(Digit(v)) == v
  {
  }

  /** One full group decodes back to the three bytes it encodes. */
  lemma {:induction false} GroupRoundTrip(b0: byte, b1: byte, b2: byte)
    ensures var v0, v1, v2, v3 := b0 / 4, b0 % 4 * 16 + b1 / 16, b1 % 16 * 4 + b2 / 64, b2 % 64;
      && 0 <= v0 < 64 && 0 <= v1 < 64 && 0 <= v2 < 64 && 0 <= v3 < 64
      && FirstByte(v0, v1) == b0
      && SecondByte(v1, v2) == b1
      && ThirdByte(v2, v3) == b2
  {
    var v1, v2 := b0 % 4 * 16 + b1 / 16, b1 % 16 * 4 + b2 / 64;
    assert v1 / 16 == b0 % 4 && v1 % 16 == b1 / 16;
    assert v2 / 4 == b1 % 16 && v2 % 4 == b2 / 64;
  }

  /** A full group: its four characters decode to its three bytes. */
  lemma {:induction false} FullGroupRoundTrip(b: seq<byte>)
    requires |b| >= 3
    ensures var e := EncodeUnpadded(b);
      |e| >= 4 && DecodeSextets(e)[..3] == b[..3] && DecodeSextets(e)[3..] == DecodeSextets(e[4..])
  {
    var e := EncodeUnpadded(b);
    GroupCharacters(b);
    DecodeGroup(e);
    var r := DecodeSextets(e);
    assert r[..3] == [b[0], b[1], b[2]] == b[..3];
  }

  /** The first four characters of the encoding carry the sextets of the first three bytes. */
  lemma {:induction false} GroupCharacters(b: seq<byte>)
    requires |b| >= 3
    ensures var e := EncodeUnpadded(b);
      && |e| >= 4 && AllAlphabet(e) && |e| % 4 != 1
      && FirstByte(Value(e[0]), Value(e[1])) == b[0]
      && SecondByte(Value(e[1]), Value(e[2])) == b[1]
      && ThirdByte(Value(e[2]), Value(e[3])) == b[2]
  {
    var v0, v1, v2, v3 := b[0] / 4, b[0] % 4 * 16 + b[1] / 16, b[1] % 16 * 4 + b[2] / 64, b[2] % 64;
    GroupRoundTrip(b[0], b[1], b[2]);
    var e := EncodeUnpadded(b);
    EncodeUnpaddedGroup(b);
    assert e[0] == Digit(v0) && e[1] == Digit(v1) && e[2] == Digit(v2) && e[3] == Digit(v3);
    ValueOfDigit(v0);
    ValueOfDigit(v1);
    ValueOfDigit(v2);
    ValueOfDigit(v3);
    UnpaddedLengthMod(|b|);
  }

  /** The unpadded encoding's length is never 1 mod 4. */
  lemma UnpaddedLengthMod(n: nat)
    ensures UnpaddedLength(n) % 4 == (if n % 3 == 0 then 0 else n % 3 + 1)
  {
  }

  /** Decoding takes the first four characters as one group. */
  lemma DecodeGroup(d: JsString)
    requires AllAlphabet(d) && |d| % 4 != 1 && |d| >= 4
    ensures DecodeSextets(d)
      == [FirstByte(Value(d[0]), Value(d[1])), SecondByte(Value(d[1]), Value(d[2])), ThirdByte(Value(d[2]), Value(d[3]))]
         + DecodeSextets(d[4..])
  {
  }

  /** A final pair or single byte: its three or two characters decode to it. */
  lemma {:induction false} FinalGroupRoundTrip(b: seq<byte>)
    requires |b| < 3
    ensures DecodeSextets(EncodeUnpadded(b)) == b
  {
    if |b| == 2 {
      GroupRoundTrip(b[0], b[1], 0);
      ValueOfDigit(b[0] / 4);
      ValueOfDigit(b[0] % 4 * 16 + b[1] / 16);
      ValueOfDigit(b[1] % 16 * 4);
    } else if |b| == 1 {
      GroupRoundTrip(b[0], 0, 0);
      ValueOfDigit(b[0] / 4);
      ValueOfDigit(b[0] % 4 * 16);
    }
  }

  /** The decoding of the unpadded groups is the input again. */
  lemma {:induction false} DecodeSextetsOfEncodeUnpadded(b: seq<byte>)
    ensures UnpaddedLength(|b|) % 4 != 1
    ensures DecodeSextets(EncodeUnpadded(b)) == b
    decreases |b|
  {
    var n := |b|;
    assert UnpaddedLength(n) % 4 == (if n % 3 == 0 then 0 else n % 3 + 1);
    if |b| >= 3 {
      var e := EncodeUnpadded(b);
      FullGroupRoundTrip(b);
      assert e[4..] == EncodeUnpadded(b[3..]);
      DecodeSextetsOfEncodeUnpadded(b[3..]);
      var r := DecodeSextets(e);
      calc {
        r;
        r[..3] + r[3..];
        b[..3] + b[3..];
        b;
      }
    } else {
      FinalGroupRoundTrip(b);
    }
  }

  /** `d` with the bits the decoder discards cleared: the low 4 bits of the
      last character when `|d| % 4 == 2`, the low 2 bits when `|d| % 4 == 3`. */
  function ClearPadBits(d: JsString): (r: JsString)
    requires AllAlphabet(d) && |d| % 4 != 1
    ensures |r| == |d| && AllAlphabet(r)
  {
    if |d| % 4 == 2 then d[..|d| - 1] + [Digit(Value(d[|d| - 1]) / 16 * 16)]
    else if |d| % 4 == 3 then d[..|d| - 1] + [Digit(Value(d[|d| - 1]) / 4 * 4)]
    else d
  }

  /** The bits the decoder discards are zero, as section 3.5 of RFC 4648 requires of an encoder. */
  predicate HasZeroPadBits(d: JsString)
    requires AllAlphabet(d)
  {
    && (|d| % 4 == 2 ==> Value(d[|d| - 1]) % 16 == 0)
    && (|d| % 4 == 3 ==> Value(d[|d| - 1]) % 4 == 0)
  }

  /** Clearing changes nothing exactly when the discarded bits are already zero. */
  lemma ClearPadBitsIdentity(d: JsString)
    requires AllAlphabet(d) && |d| % 4 != 1
    ensures ClearPadBits(d) == d <==> HasZeroPadBits(d)
  {
    if |d| % 4 == 2 || |d| % 4 == 3 {
      var v := Value(d[|d| - 1]);
      var m := if |d| % 4 == 2 then 16 else 4;
      ValueOfDigit(v / m * m);
      assert ClearPadBits(d)[|d| - 1] == Digit(v / m * m);
      assert d == d[..|d| - 1] + [d[|d| - 1]];
    }
  }

  /** The other composition: re-encoding the decoded bytes gives the text
      back, with only the discarded bits cleared. */
  lemma {:induction false} EncodeOfDecodeSextets(d: JsString)
    requires AllAlphabet(d) && |d| % 4 != 1
    ensures EncodeUnpadded(DecodeSextets(d)) == ClearPadBits(d)
    decreases |d|
  {
    if |d| >= 4 {
      var t := d[4..];
      LengthAfterGroup(|d|);
      assert |t| == |d| - 4 && AllAlphabet(t);
      EncodeOfDecodeSextets(t);
      EncodeOfDecodeGroup(d, t);
      ClearPadBitsOfGroup(d);
    } else if |d| == 3 {
      EncodeOfDecodePair(d);
    } else if |d| == 2 {
      EncodeOfDecodeSingle(d);
    }
  }

  /** Dropping a group of four keeps the length modulo 4. */
  lemma LengthAfterGroup(n: int)
    requires n >= 4
    ensures (n - 4) % 4 == n % 4
  {
  }

  /** The first group of four characters re-encodes to itself. */
  lemma EncodeOfDecodeGroup(d: JsString, t: JsString)
    requires AllAlphabet(d) && |d| % 4 != 1 && |d| >= 4
    requires t == d[4..] && AllAlphabet(t) && |t| % 4 != 1
    ensures EncodeUnpadded(DecodeSextets(d)) == d[..4] + EncodeUnpadded(DecodeSextets(t))
  {
    var v0, v1, v2, v3 := Value(d[0]), Value(d[1]), Value(d[2]), Value(d[3]);
    var b := DecodeSextets(d);
    DecodeGroupParts(d);
    EncodeGroup(b, v0, v1, v2, v3);
    FirstFour(d);
  }

  lemma DecodeGroupParts(d: JsString)
    requires AllAlphabet(d) && |d| % 4 != 1 && |d| >= 4
    ensures var b := DecodeSextets(d);
      && |b| >= 3
      && b[0] == FirstByte(Value(d[0]), Value(d[1]))
      && b[1] == SecondByte(Value(d[1]), Value(d[2]))
      && b[2] == ThirdByte(Value(d[2]), Value(d[3]))
      && b[3..] == DecodeSextets(d[4..])
  {
    DecodeGroup(d);
  }

  /** Three bytes made of four sextets encode to those sextets' characters. */
  lemma EncodeGroup(b: seq<byte>, v0: int, v1: int, v2: int, v3: int)
    requires 0 <= v0 < 64 && 0 <= v1 < 64 && 0 <= v2 < 64 && 0 <= v3 < 64
    requires |b| >= 3 && b[0] == FirstByte(v0, v1) && b[1] == SecondByte(v1, v2) && b[2] == ThirdByte(v2, v3)
    ensures EncodeUnpadded(b) == [Digit(v0), Digit(v1), Digit(v2), Digit(v3)] + EncodeUnpadded(b[3..])
  {
    EncodeUnpaddedGroup(b);
    SplitSextets(v0, v1, v2, v3);
  }

  lemma EncodeUnpaddedGroup(b: seq<byte>)
    requires |b| >= 3
    ensures EncodeUnpadded(b)
         == [Digit(b[0] / 4), Digit(b[0] % 4 * 16 + b[1] / 16), Digit(b[1] % 16 * 4 + b[2] / 64), Digit(b[2] % 64)]
            + EncodeUnpadded(b[3..])
  {
  }

  /** The first four characters are the digits of their values. */
  lemma FirstFour(d: JsString)
    requires AllAlphabet(d) && |d| >= 4
    ensures d[..4] == [Digit(Value(d[0])), Digit(Value(d[1])), Digit(Value(d[2])), Digit(Value(d[3]))]
  {
    var c0, c1, c2, c3 := d[0], d[1], d[2], d[3];
    assert Digit(Value(c0)) == c0 && Digit(Value(c1)) == c1 && Digit(Value(c2)) == c2 && Digit(Value(c3)) == c3;
    assert d[..4] == [c0, c1, c2, c3];
  }

  /** Three final characters re-encode with the low 2 bits of the last one cleared. */
  lemma EncodeOfDecodePair(d: JsString)
    requires AllAlphabet(d) && |d| == 3
    ensures EncodeUnpadded(DecodeSextets(d)) == ClearPadBits(d)
  {
    var v0, v1, v2 := Value(d[0]), Value(d[1]), Value(d[2]);
    var x, y := FirstByte(v0, v1), SecondByte(v1, v2);
    assert DecodeSextets(d) == [x, y];
    assert EncodeUnpadded([x, y]) == [Digit(x / 4), Digit(x % 4 * 16 + y / 16), Digit(y % 16 * 4)];
    SplitSextets(v0, v1, v2, 0);
    assert y % 16 * 4 == v2 / 4 * 4;
    ClearPadBitsOfFinal(d);
  }

  /** Two final characters re-encode with the low 4 bits of the last one cleared. */
  lemma EncodeOfDecodeSingle(d: JsString)
    requires AllAlphabet(d) && |d| == 2
    ensures EncodeUnpadded(DecodeSextets(d)) == ClearPadBits(d)
  {
    var v0, v1 := Value(d[0]), Value(d[1]);
    var x := FirstByte(v0, v1);
    assert DecodeSextets(d) == [x];
    assert EncodeUnpadded([x]) == [Digit(x / 4), Digit(x % 4 * 16)];
    SplitSextets(v0, v1, 0, 0);
    assert x % 4 * 16 == v1 / 16 * 16;
    ClearPadBitsOfFinal(d);
  }

  /** A final group of 2 or 3 characters, written with its discarded bits cleared. */
  lemma ClearPadBitsOfFinal(d: JsString)
    requires AllAlphabet(d) && (|d| == 2 || |d| == 3)
    ensures |d| == 2 ==> ClearPadBits(d) == [Digit(Value(d[0])), Digit(Value(d[1]) / 16 * 16)]
    ensures |d| == 3 ==> ClearPadBits(d) == [Digit(Value(d[0])), Digit(Value(d[1])), Digit(Value(d[2]) / 4 * 4)]
  {
    var c0, c1 := d[0], d[1];
    assert Digit(Value(c0)) == c0 && Digit(Value(c1)) == c1;
    if |d| == 3 {
      assert d[..2] == [c0, c1];
    } else {
      assert d[..1] == [c0];
    }
  }

  /** The bytes of four sextets split back into those sextets. */
  lemma SplitSextets(v0: int, v1: int, v2: int, v3: int)
    requires 0 <= v0 < 64 && 0 <= v1 < 64 && 0 <= v2 < 64 && 0 <= v3 < 64
    ensures var b0, b1, b2 := FirstByte(v0, v1), SecondByte(v1, v2), ThirdByte(v2, v3);
      && b0 / 4 == v0 && b0 % 4 * 16 + b1 / 16 == v1
      && b1 % 16 * 4 + b2 / 64 == v2 && b2 % 64 == v3
      && b0 % 4 == v1 / 16 && b1 % 16 == v2 / 4
  {
    var b0, b1, b2 := FirstByte(v0, v1), SecondByte(v1, v2), ThirdByte(v2, v3);
    assert b0 / 4 == v0 && b0 % 4 == v1 / 16;
    assert b1 / 16 == v1 % 16 && b1 % 16 == v2 / 4;
    assert b2 / 64 == v2 % 4 && b2 % 64 == v3;
  }

  /** Clearing the discarded bits leaves the first group alone. */
  lemma ClearPadBitsOfGroup(d: JsString)
    requires AllAlphabet(d) && |d| % 4 != 1 && |d| >= 4
    ensures ClearPadBits(d) == d[..4] + ClearPadBits(d[4..])
  {
    var t := d[4..];
    assert |t| % 4 == |d| % 4;
    if |t| % 4 == 0 {
      assert d == d[..4] + t;
    } else {
      assert d[|d| - 1] == t[|t| - 1];
      assert d[..|d| - 1] == d[..4] + t[..|t| - 1];
    }
  }

  /** The encoder leaves the discarded bits zero (section 3.5 of RFC 4648). */
  lemma {:induction false} EncodeUnpaddedHasZeroPadBits(b: seq<byte>)
    ensures HasZeroPadBits(EncodeUnpadded(b))
  {
    var e := EncodeUnpadded(b);
    DecodeSextetsOfEncodeUnpadded(b);
    EncodeOfDecodeSextets(e);
  }

  /** Forgiving decode accepts exactly the text whose significant part is
      alphabet-only with a length not 1 mod 4, and the bytes it returns
      re-encode to that part with the discarded bits cleared. */
  lemma {:induction false} ForgivingDecodeReencodes(s: JsString)
    requires ForgivingDecode(s).Some?
    ensures EncodeUnpadded(ForgivingDecode(s).value) == ClearPadBits(Significant(s))
  {
    EncodeOfDecodeSextets(Significant(s));
  }

  /** Padding may be omitted: the unpadded groups decode to the input. */
  lemma {:induction false} DecodeUnpadded(b: seq<byte>)
    ensures ForgivingDecode(EncodeUnpadded(b)) == Some(b)
  {
    SignificantOfAlphabet(EncodeUnpadded(b));
    DecodeSextetsOfEncodeUnpadded(b);
  }

  /** Text made only of alphabet characters has nothing for steps 1 and 2 to remove. */
  lemma SignificantOfAlphabet(d: JsString)
    requires AllAlphabet(d)
    ensures Significant(d) == d
  {
    assert NoAsciiWhitespace(d);
  }

  /** Round trip of RFC 4648 encoding through forgiving-base64 decode. */
  lemma {:induction false} DecodeEncode(b: seq<byte>)
    ensures ForgivingDecode(Encode(b)) == Some(b)
  {
    var e := Encode(b);
    assert NoAsciiWhitespace(e);
    RemovePaddingOfEncode(b);
    DecodeSextetsOfEncodeUnpadded(b);
  }

  /** Step 2 of the decoder strips exactly the padding the encoder added. */
  lemma {:induction false} RemovePaddingOfEncode(b: seq<byte>)
    ensures RemovePadding(Encode(b)) == EncodeUnpadded(b)
  {
    var u, e := EncodeUnpadded(b), Encode(b);
    if |b| % 3 == 1 {
      assert e[..|e| - 2] == u;
    } else if |b| % 3 == 2 {
      assert e[|e| - 2] == u[|u| - 1];
      assert e[..|e| - 1] == u;
    } else {
      assert e == u;
      assert |e| > 0 ==> e[|e| - 1] == u[|u| - 1];
    }
  }

  /** Whitespace anywhere in the input does not change what is decoded. */
  lemma DecodeIgnoresWhitespace(s: JsString)
    ensures ForgivingDecode(s) == ForgivingDecode(StripAsciiWhitespace(s))
  {
    var t := StripAsciiWhitespace(s);
    assert StripAsciiWhitespace(t) == t;
  }

  /** Rejection: a length of 1 mod 4 once whitespace is removed. */
  lemma DecodeRejectsLengthOneModFour(s: JsString)
    requires |StripAsciiWhitespace(s)| % 4 == 1
    ensures ForgivingDecode(s) == None
  {
  }

  /** Rejection: any character that is neither in the alphabet, nor `=`, nor ASCII whitespace. */
  lemma {:induction false} DecodeRejectsForeignCharacter(s: JsString, i: nat)
    requires i < |s| && !IsAlphabet(s[i]) && s[i] != Pad && !IsAsciiWhitespace(s[i])
    ensures ForgivingDecode(s) == None
  {
    var t := StripAsciiWhitespace(s);
    assert s[i] in t;
    var k :| 0 <= k < |t| && t[k] == s[i];
    var d := RemovePadding(t);
    assert k < |d|;
    assert !IsAlphabet(d[k]);
  }

  /** `atob` undoes `btoa` on every binary string. */
  lemma {:induction false} AtobBtoa(s: JsString)
    requires IsLatin1(s)
    ensures Btoa(s).Ok? && Atob(Btoa(s).value) == Ok(s)
  {
    DecodeEncode(Latin1Bytes(s));
    Latin1RoundTripString(s);
  }
}
