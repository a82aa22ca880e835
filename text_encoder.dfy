/** `new TextEncoder().encode(s)`: the WHATWG Encoding standard's UTF-8 encoder.

    The JavaScript string is first converted to a sequence of Unicode scalar
    values (a high surrogate followed by a low surrogate is one supplementary
    code point; any other surrogate becomes U+FFFD), and each scalar value is
    then written in 1 to 4 bytes as section 3 of RFC 3629 prescribes. A strict
    decoder that accepts exactly the well-formed sequences of section 4 of
    RFC 3629 is defined beside it as the reference the encoding is checked
    against.
 */
module TextEncoder {
  import opened JsCore

  const Replacement: int := 0xFFFD

  predicate IsSurrogate(u: int) { 0xD800 <= u <= 0xDFFF }

  /** A Unicode scalar value: a code point that is not a surrogate. */
  predicate IsScalar(cp: int) {
    0 <= cp <= 0x10FFFF && !IsSurrogate(cp)
  }

  predicate AllScalars(cps: seq<int>) {
    forall i | 0 <= i < |cps| :: IsScalar(cps[i])
  }

  /** The number of code units the first scalar value of `s` takes. */
  function FirstUnits(s: JsString): (n: nat)
    requires s != []
    ensures 1 <= n <= |s| && (n == 2 <==> StartsWithPair(s))
  {
    if StartsWithPair(s) then 2 else 1
  }

  /** The first scalar value of `s`: a surrogate pair combined, a lone
      surrogate replaced by U+FFFD, any other code unit as it is. */
  function FirstValue(s: JsString): (cp: int)
    requires s != []
    ensures IsScalar(cp)
  {
    if StartsWithPair(s) then 0x10000 + (s[0] as int - 0xD800) * 0x400 + (s[1] as int - 0xDC00)
    else if IsSurrogate(s[0]) then Replacement
    else s[0] as int
  }

  /** The scalar values a JavaScript string converts to (USVString conversion). */
  function ScalarValues(s: JsString): (r: seq<int>)
    ensures AllScalars(r) && |r| <= |s|
    decreases |s|
  {
    if s == [] then [] else [FirstValue(s)] + ScalarValues(s[FirstUnits(s)..])
  }

  /** UTF-16, the inverse of the conversion above: a scalar value below
      U+10000 is one code unit equal to it; any other is a high surrogate
      carrying the upper ten bits of `cp - 0x10000` and a low surrogate
      carrying the lower ten. */
  function Utf16Of(cp: int): (r: JsString)
    requires IsScalar(cp)
    ensures |r| == (if cp < 0x10000 then 1 else 2)
  {
    if cp < 0x10000 then [cp]
    else [0xD800 + (cp - 0x10000) / 0x400, 0xDC00 + (cp - 0x10000) % 0x400]
  }

  function Utf16(cps: seq<int>): (r: JsString)
    requires AllScalars(cps)
    ensures |cps| <= |r| <= 2 * |cps|
    decreases |cps|
  {
    if cps == [] then [] else Utf16Of(cps[0]) + Utf16(cps[1..])
  }

  /** Well-formed UTF-16: every high surrogate is followed by a low one and
      every low surrogate follows a high one, so no surrogate is alone. */
  predicate IsWellFormedUtf16(s: JsString) {
    && (forall i | 0 <= i < |s| - 1 && IsHighSurrogate(s[i]) :: IsLowSurrogate(s[i + 1]))
    && (|s| > 0 ==> !IsHighSurrogate(s[|s| - 1]))
    && (forall i | 0 < i < |s| && IsLowSurrogate(s[i]) :: IsHighSurrogate(s[i - 1]))
    && (|s| > 0 ==> !IsLowSurrogate(s[0]))
  }

  predicate IsContinuation(b: byte) { 0x80 <= b <= 0xBF }

  /** The six payload bits of a continuation byte. */
  function Bits(b: byte): int { b as int - 0x80 }

  /** Section 3 of RFC 3629: the UTF-8 bytes of one scalar value. */
  function EncodeScalar(cp: int): (r: seq<byte>)
    requires IsScalar(cp)
    ensures 1 <= |r| <= 4
    ensures |r| == 1 <==> cp < 0x80
    ensures |r| <= 3 <==> cp < 0x10000
  {
    var q1 := cp / 64;
    var q2 := q1 / 64;
    var q3 := q2 / 64;
    if cp < 0x80 then [cp]
    else if cp < 0x800 then [0xC0 + q1, 0x80 + cp % 64]
    else if cp < 0x10000 then [0xE0 + q2, 0x80 + q1 % 64, 0x80 + cp % 64]
    else [0xF0 + q3, 0x80 + q2 % 64, 0x80 + q1 % 64, 0x80 + cp % 64]
  }

  function EncodeScalars(cps: seq<int>): (r: seq<byte>)
    requires AllScalars(cps)
    ensures |r| <= 4 * |cps|
    decreases |cps|
  {
    if cps == [] then [] else EncodeScalar(cps[0]) + EncodeScalars(cps[1..])
  }

  /** `new TextEncoder().encode(s)`. */
  function Encode(s: JsString): (r: seq<byte>)
    ensures |r| <= 4 * |ScalarValues(s)|
  {
    EncodeScalars(ScalarValues(s))
  }

  // ---------------------------------------------------------------------------
  // The reference: a strict UTF-8 decoder (section 4 of RFC 3629)
  // ---------------------------------------------------------------------------

  /** The scalar value encoded at the start of `b` and the number of bytes it
      takes, or None when `b` does not start with a well-formed sequence
      (a stray continuation byte, C0, C1 or F5..FF, a truncated sequence, an
      overlong form, a surrogate, or a value beyond U+10FFFF). */
  function DecodeFirst(b: seq<byte>): (r: Option<(int, nat)>)
    requires |b| > 0
    ensures r.Some? ==> IsScalar(r.value.0) && 1 <= r.value.1 <= |b|
  {
    var b0: int := b[0];
    if b0 < 0x80 then Some((b0, 1))
    else if 0xC2 <= b0 <= 0xDF && |b| >= 2 && IsContinuation(b[1]) then
      Some(((b0 - 0xC0) * 64 + Bits(b[1]), 2))
    else if 0xE0 <= b0 <= 0xEF && |b| >= 3 && IsContinuation(b[1]) && IsContinuation(b[2]) then
      var v := ((b0 - 0xE0) * 64 + Bits(b[1])) * 64 + Bits(b[2]);
      if v < 0x800 || IsSurrogate(v) then None else Some((v, 3))
    else if 0xF0 <= b0 <= 0xF4 && |b| >= 4 && IsContinuation(b[1]) && IsContinuation(b[2]) && IsContinuation(b[3]) then
      var v := (((b0 - 0xF0) * 64 + Bits(b[1])) * 64 + Bits(b[2])) * 64 + Bits(b[3]);
      if v < 0x10000 || v > 0x10FFFF then None else Some((v, 4))
    else None
  }

  /** The scalar values of a well-formed UTF-8 byte sequence, or None when it is not well formed. */
  function Decode(b: seq<byte>): (r: Option<seq<int>>)
    ensures r.Some? ==> AllScalars(r.value)
    decreases |b|
  {
    if b == [] then Some([])
    else match DecodeFirst(b)
      case None => None
      case Some((cp, n)) =>
        match Decode(b[n..])
        case None => None
        case Some(rest) => Some([cp] + rest)
  }

  // ---------------------------------------------------------------------------
  // Properties
  // ---------------------------------------------------------------------------

  /** Each scalar value's bytes are read back as that value, whatever follows. */
  lemma {:induction false} DecodeFirstOfEncodeScalar(cp: int, rest: seq<byte>)
    requires IsScalar(cp)
    ensures DecodeFirst(EncodeScalar(cp) + rest) == Some((cp, |EncodeScalar(cp)|))
  {
    var q1 := cp / 64;
    var q2 := q1 / 64;
    var q3 := q2 / 64;
    if cp < 0x80 {
    } else if cp < 0x800 {
      assert cp == q1 * 64 + cp % 64;
    } else if cp < 0x10000 {
      assert cp == q1 * 64 + cp % 64;
      assert q1 == q2 * 64 + q1 % 64;
    } else {
      assert cp == q1 * 64 + cp % 64;
      assert q1 == q2 * 64 + q1 % 64;
      assert q2 == q3 * 64 + q2 % 64;
    }
  }

  /** The encoding of scalar values is well-formed UTF-8 that decodes back to them. */
  lemma {:induction false} DecodeEncodeScalars(cps: seq<int>)
    requires AllScalars(cps)
    ensures Decode(EncodeScalars(cps)) == Some(cps)
    decreases |cps|
  {
    if cps != [] {
      var head, tail := EncodeScalar(cps[0]), EncodeScalars(cps[1..]);
      DecodeFirstOfEncodeScalar(cps[0], tail);
      assert EncodeScalars(cps) == head + tail;
      assert (head + tail)[|head|..] == tail;
      DecodeEncodeScalars(cps[1..]);
      assert cps == [cps[0]] + cps[1..];
    }
  }

  /** `encodeUTF8` yields well-formed UTF-8 whose decoding is the string's scalar values. */
  lemma {:induction false} EncodeIsWellFormed(s: JsString)
    ensures Decode(Encode(s)) == Some(ScalarValues(s))
  {
    DecodeEncodeScalars(ScalarValues(s));
  }

  /** At most three bytes per UTF-16 code unit: BMP units take 1 to 3 bytes,
      a surrogate pair takes 4 bytes for its 2 units. */
  lemma {:induction false} EncodeLengthBound(s: JsString)
    ensures |Encode(s)| <= 3 * |s|
    decreases |s|
  {
    if s != [] {
      var n := FirstUnits(s);
      EncodeLengthBound(s[n..]);
      assert ScalarValues(s)[1..] == ScalarValues(s[n..]);
    }
  }

  /** ASCII text encodes to the bytes equal to its code units. */
  lemma {:induction false} EncodeAscii(s: JsString)
    requires forall i | 0 <= i < |s| :: s[i] < 0x80
    ensures |Encode(s)| == |s|
    ensures forall i | 0 <= i < |s| :: Encode(s)[i] == s[i]
    decreases |s|
  {
    if s != [] {
      EncodeAscii(s[1..]);
      assert ScalarValues(s)[1..] == ScalarValues(s[1..]);
    }
  }

  /** The string-to-scalar-values conversion reads UTF-16 back: the code
      units of scalar values convert to exactly those values. */
  lemma {:induction false} ScalarValuesOfUtf16(cps: seq<int>)
    requires AllScalars(cps)
    ensures ScalarValues(Utf16(cps)) == cps
    decreases |cps|
  {
    if cps != [] {
      var head, tail := Utf16Of(cps[0]), Utf16(cps[1..]);
      FirstOfUtf16Of(cps[0], tail);
      assert (head + tail)[|head|..] == tail;
      ScalarValuesOfUtf16(cps[1..]);
      assert cps == [cps[0]] + cps[1..];
    }
  }

  /** A scalar value's code units, whatever follows, are its first step. */
  lemma FirstOfUtf16Of(cp: int, rest: JsString)
    requires IsScalar(cp)
    ensures var s := Utf16Of(cp) + rest; s != [] && FirstUnits(s) == |Utf16Of(cp)| && FirstValue(s) == cp
  {
    if cp >= 0x10000 {
      var v := cp - 0x10000;
      assert v == v / 0x400 * 0x400 + v % 0x400;
    }
  }

  /** Well-formed UTF-16 text is the UTF-16 form of its scalar values: the
      conversion loses nothing when no surrogate is alone. */
  lemma {:induction false} Utf16OfScalarValues(s: JsString)
    requires IsWellFormedUtf16(s)
    ensures Utf16(ScalarValues(s)) == s
    decreases |s|
  {
    if s != [] {
      var n := FirstUnits(s);
      WellFormedRest(s);
      Utf16OfScalarValues(s[n..]);
      Utf16OfFirst(s);
      var cps := ScalarValues(s);
      assert cps[0] == FirstValue(s) && cps[1..] == ScalarValues(s[n..]);
      assert s == s[..n] + s[n..];
    }
  }

  /** After the first step, well-formed text stays well formed, and a
      one-unit first step is not a surrogate. */
  lemma WellFormedRest(s: JsString)
    requires s != [] && IsWellFormedUtf16(s)
    ensures IsWellFormedUtf16(s[FirstUnits(s)..])
    ensures FirstUnits(s) == 1 ==> !IsSurrogate(s[0])
  {
    var n := FirstUnits(s);
    var rest := s[n..];
    assert forall i | 0 <= i < |rest| :: rest[i] == s[i + n];
    if |s| > 1 && IsHighSurrogate(s[0]) {
      assert IsLowSurrogate(s[1]);
    }
  }

  /** The first step of well-formed text is the UTF-16 form of its value. */
  lemma Utf16OfFirst(s: JsString)
    requires s != [] && (StartsWithPair(s) || !IsSurrogate(s[0]))
    ensures Utf16Of(FirstValue(s)) == s[..FirstUnits(s)]
  {
    if StartsWithPair(s) {
      var h, l := s[0] as int - 0xD800, s[1] as int - 0xDC00;
      var v := FirstValue(s) - 0x10000;
      assert v == h * 0x400 + l;
      assert v / 0x400 == h && v % 0x400 == l;
    }
  }

  /** `encodeUTF8` of the UTF-16 form of scalar values is their UTF-8 form,
      supplementary characters included. */
  lemma {:induction false} EncodeUtf16(cps: seq<int>)
    requires AllScalars(cps)
    ensures Encode(Utf16(cps)) == EncodeScalars(cps)
  {
    ScalarValuesOfUtf16(cps);
  }

  /** No surrogate pair straddles the boundary between `s` and `t`. */
  predicate SplitsNoPair(s: JsString, t: JsString) {
    !(|s| > 0 && |t| > 0 && IsHighSurrogate(s[|s| - 1]) && IsLowSurrogate(t[0]))
  }

  lemma {:induction false} ScalarValuesAppend(s: JsString, t: JsString)
    requires SplitsNoPair(s, t)
    ensures ScalarValues(s + t) == ScalarValues(s) + ScalarValues(t)
    decreases |s|
  {
    if s == [] {
      assert s + t == t;
    } else {
      var rest := s[FirstUnits(s)..];
      RestSplitsNoPair(s, t);
      ScalarValuesAppend(rest, t);
      ScalarValuesOfAppendStep(s, t);
      assert ScalarValues(s) == [FirstValue(s)] + ScalarValues(rest);
    }
  }

  /** What is left after the first scalar value still ends where `s` ends. */
  lemma RestSplitsNoPair(s: JsString, t: JsString)
    requires s != [] && SplitsNoPair(s, t)
    ensures SplitsNoPair(s[FirstUnits(s)..], t)
  {
    var rest := s[FirstUnits(s)..];
    if |rest| > 0 {
      assert rest[|rest| - 1] == s[|s| - 1];
    }
  }

  /** The first step of converting `s + t` is the first step of converting `s`. */
  lemma ScalarValuesOfAppendStep(s: JsString, t: JsString)
    requires s != [] && SplitsNoPair(s, t)
    ensures ScalarValues(s + t) == [FirstValue(s)] + ScalarValues(s[FirstUnits(s)..] + t)
  {
    FirstOfAppend(s, t);
    assert (s + t)[FirstUnits(s)..] == s[FirstUnits(s)..] + t;
  }

  /** Appending text after a point where no pair is cut does not change the first scalar value. */
  lemma FirstOfAppend(s: JsString, t: JsString)
    requires s != [] && SplitsNoPair(s, t)
    ensures FirstUnits(s + t) == FirstUnits(s) && FirstValue(s + t) == FirstValue(s)
  {
    var st := s + t;
    assert st[0] == s[0];
    assert |s| >= 2 ==> st[1] == s[1];
    assert |s| == 1 && |t| > 0 ==> st[1] == t[0];
  }

  lemma {:induction false} EncodeScalarsAppend(a: seq<int>, b: seq<int>)
    requires AllScalars(a) && AllScalars(b)
    ensures AllScalars(a + b) && EncodeScalars(a + b) == EncodeScalars(a) + EncodeScalars(b)
    decreases |a|
  {
    if a == [] {
      assert a + b == b;
    } else {
      assert (a + b)[1..] == a[1..] + b;
      EncodeScalarsAppend(a[1..], b);
    }
  }

  /** Encoding is compositional as long as no surrogate pair is cut in two. */
  lemma {:induction false} EncodeAppend(s: JsString, t: JsString)
    requires SplitsNoPair(s, t)
    ensures Encode(s + t) == Encode(s) + Encode(t)
  {
    ScalarValuesAppend(s, t);
    EncodeScalarsAppend(ScalarValues(s), ScalarValues(t));
  }

  /** A surrogate that is not part of a pair is written as EF BF BD, the
      encoding of U+FFFD, and the text around it is encoded as on its own. */
  lemma {:induction false} EncodeLoneSurrogate(prefix: JsString, u: CodeUnit, suffix: JsString)
    requires IsSurrogate(u)
    requires SplitsNoPair(prefix, [u]) && SplitsNoPair([u], suffix)
    ensures Encode(prefix + [u] + suffix) == Encode(prefix) + [0xEF, 0xBF, 0xBD] + Encode(suffix)
  {
    var single: JsString := [u];
    assert ScalarValues(single) == [Replacement] by {
      assert single[1..] == [];
    }
    assert Encode(single) == [0xEF, 0xBF, 0xBD];
    EncodeAppend(prefix, single);
    assert SplitsNoPair(prefix + single, suffix);
    EncodeAppend(prefix + single, suffix);
  }
}
