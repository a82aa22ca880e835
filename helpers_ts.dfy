/** The pure helpers of src/utils/helpers.ts: the Base64 byte codec, the PEM
    cleaner, the string Base64 wrappers and the UTF-8 encoder. The asynchronous
    AES-GCM and PBKDF2 helpers of the same file are not part of this model.
 */
module Helpers {
  import opened JsCore
  import WebBase64
  import JsStrings
  import TextEncoder

  // ---------------------------------------------------------------------------
  // Base64 byte codec
  // ---------------------------------------------------------------------------

  /** `base64ToUint8Array(b64)`: `atob`, then each code unit through `charCodeAt`
      and the Uint8Array conversion. Throws InvalidCharacterError exactly when
      forgiving-base64 decode fails. */
  function Base64ToUint8Array(b64: JsString): (r: Result<seq<byte>>)
    ensures r.Ok? <==> WebBase64.ForgivingDecode(b64).Some?
    ensures r.Ok? ==> |r.value| == |WebBase64.Significant(b64)| * 3 / 4
    ensures r.Err? ==> r.error == InvalidCharacterError
    ensures r.Ok? ==> Some(r.value) == WebBase64.ForgivingDecode(b64)
  {
    match WebBase64.Atob(b64)
    case Err(e) => Err(e)
    case Ok(binary) => Ok(CharCodesToUint8(binary))
  }

  /** `bufferToBase64(buffer)`: `String.fromCharCode` over the bytes, then
      `btoa`. This never throws, and the text is the RFC 4648 encoding of the
      bytes: 4 * ceil(n / 3) characters of the alphabet with 0 to 2 `=` at the end. */
  function BufferToBase64(buffer: seq<byte>): (r: JsString)
    ensures r == WebBase64.Encode(buffer)
    ensures |r| == 4 * ((|buffer| + 2) / 3)
    ensures forall i | 0 <= i < |r| - WebBase64.PadCount(|buffer|) :: WebBase64.IsAlphabet(r[i])
    ensures forall i | |r| - WebBase64.PadCount(|buffer|) <= i < |r| :: r[i] == WebBase64.Pad
  {
    Latin1RoundTrip(buffer);
    WebBase64.Btoa(FromCharCodes(buffer)).value
  }

  /** Decoding what `bufferToBase64` produced gives back the bytes. */
  lemma {:induction false} Base64RoundTrip(b: seq<byte>)
    ensures Base64ToUint8Array(BufferToBase64(b)) == Ok(b)
  {
    var text := BufferToBase64(b);
    WebBase64.DecodeEncode(b);
    var binary := FromCharCodes(b);
    assert WebBase64.Atob(text) == Ok(binary);
    Latin1RoundTrip(b);
  }

  /** Padding is `==` after a final single byte, `=` after a final pair, and
      absent when the length is a multiple of 3. */
  lemma BufferToBase64Padding(b: seq<byte>)
    ensures var r := BufferToBase64(b);
      && (|b| % 3 == 0 ==> forall i | 0 <= i < |r| :: r[i] != WebBase64.Pad)
      && (|b| % 3 == 1 ==> r[|r| - 2..] == [WebBase64.Pad, WebBase64.Pad] && WebBase64.IsAlphabet(r[|r| - 3]))
      && (|b| % 3 == 2 ==> r[|r| - 1] == WebBase64.Pad && WebBase64.IsAlphabet(r[|r| - 2]))
  {
  }

  /** `base64ToUint8Array` throws when the input without whitespace has a length of 1 mod 4. */
  lemma Base64ToUint8ArrayRejectsLength(b64: JsString)
    requires |WebBase64.StripAsciiWhitespace(b64)| % 4 == 1
    ensures Base64ToUint8Array(b64) == Err(InvalidCharacterError)
  {
    WebBase64.DecodeRejectsLengthOneModFour(b64);
  }

  /** `base64ToUint8Array` throws on a character outside the alphabet (other than `=` and whitespace). */
  lemma Base64ToUint8ArrayRejectsCharacter(b64: JsString, i: nat)
    requires i < |b64| && !WebBase64.IsAlphabet(b64[i]) && b64[i] != WebBase64.Pad
    requires !WebBase64.IsAsciiWhitespace(b64[i])
    ensures Base64ToUint8Array(b64) == Err(InvalidCharacterError)
  {
    WebBase64.DecodeRejectsForeignCharacter(b64, i);
  }

  /** Padding may be left out and whitespace may be inserted: both still decode. */
  lemma {:induction false} Base64ToUint8ArrayForgives(b: seq<byte>, spaced: JsString)
    requires WebBase64.StripAsciiWhitespace(spaced) == WebBase64.EncodeUnpadded(b)
    ensures Base64ToUint8Array(spaced) == Ok(b)
  {
    WebBase64.DecodeIgnoresWhitespace(spaced);
    WebBase64.DecodeUnpadded(b);
    Latin1RoundTrip(b);
  }

  // ---------------------------------------------------------------------------
  // PEM cleaning
  // ---------------------------------------------------------------------------

  /** The encapsulation boundaries of a SubjectPublicKeyInfo in textual form
      (section 2 of RFC 7468, label from its section 13). */
  const BeginMarker: JsString := Ascii("-----BEGIN PUBLIC KEY-----")
  const EndMarker: JsString := Ascii("-----END PUBLIC KEY-----")

  /** `cleanPem(pem)`: the first BEGIN marker removed, then the first END
      marker of what is left, then all whitespace. What remains has no
      whitespace and is a subsequence of the input. */
  function CleanPem(pem: JsString): (r: JsString)
    ensures JsStrings.NoRegexSpace(r)
    ensures JsStrings.Subsequence(r, pem)
  {
    var withoutBegin := JsStrings.RemoveFirst(pem, BeginMarker);
    var withoutEnd := JsStrings.RemoveFirst(withoutBegin, EndMarker);
    JsStrings.RemoveFirstIsSubsequence(pem, BeginMarker);
    JsStrings.RemoveFirstIsSubsequence(withoutBegin, EndMarker);
    JsStrings.RemoveRegexSpaceIsSubsequence(withoutEnd);
    JsStrings.SubsequenceTransitive(withoutEnd, withoutBegin, pem);
    JsStrings.SubsequenceTransitive(JsStrings.RemoveRegexSpace(withoutEnd), withoutEnd, pem);
    JsStrings.RemoveRegexSpace(withoutEnd)
  }

  /** Text without whitespace passes unchanged: both markers contain a space,
      so neither can occur in it. */
  lemma {:induction false} CleanPemKeepsCleanText(p: JsString)
    requires JsStrings.NoRegexSpace(p)
    ensures CleanPem(p) == p
  {
    JsStrings.NoOccurrenceWithoutSpace(p, BeginMarker, 10);
    JsStrings.NoOccurrenceWithoutSpace(p, EndMarker, 8);
  }

  /** `cleanPem` is idempotent. */
  lemma {:induction false} CleanPemIdempotent(p: JsString)
    ensures CleanPem(CleanPem(p)) == CleanPem(p)
  {
    CleanPemKeepsCleanText(CleanPem(p));
  }

  /** The END marker does not occur inside the BEGIN marker. */
  lemma EndMarkerNotInBeginMarker()
    ensures forall i :: !JsStrings.OccursAt(BeginMarker, EndMarker, i)
  {
    forall i ensures !JsStrings.OccursAt(BeginMarker, EndMarker, i) {
      if 0 <= i && i + |EndMarker| <= |BeginMarker| {
        assert BeginMarker[i..i + |EndMarker|][5 - i] == BeginMarker[5] != EndMarker[5 - i];
      }
    }
  }

  /** Whitespace removal turns the BEGIN marker into "-----BEGINPUBLICKEY-----". */
  lemma {:induction false} SqueezedBeginMarker()
    ensures JsStrings.RemoveRegexSpace(BeginMarker) == Ascii("-----BEGINPUBLICKEY-----")
  {
    var head, mid, tail := BeginMarkerWords();
    SqueezeTwoSpaces(head, mid, tail);
  }

  /** The BEGIN marker is three space-free words separated by single spaces. */
  lemma BeginMarkerWords() returns (head: JsString, mid: JsString, tail: JsString)
    ensures BeginMarker == head + [0x20] + mid + [0x20] + tail
    ensures JsStrings.NoRegexSpace(head) && JsStrings.NoRegexSpace(mid) && JsStrings.NoRegexSpace(tail)
    ensures head + mid + tail == Ascii("-----BEGINPUBLICKEY-----")
  {
    head, mid, tail := Ascii("-----BEGIN"), Ascii("PUBLIC"), Ascii("KEY-----");
    BeginMarkerSplit();
    WordsWithoutSpace();
    SqueezedLiteral();
  }

  lemma BeginMarkerSplit()
    ensures BeginMarker == Ascii("-----BEGIN") + [0x20] + Ascii("PUBLIC") + [0x20] + Ascii("KEY-----")
  {
    assert "-----BEGIN PUBLIC KEY-----" == "-----BEGIN" + " " + "PUBLIC" + " " + "KEY-----";
    AsciiAppend("-----BEGIN", " ");
    AsciiAppend("-----BEGIN" + " ", "PUBLIC");
    AsciiAppend("-----BEGIN" + " " + "PUBLIC", " ");
    AsciiAppend("-----BEGIN" + " " + "PUBLIC" + " ", "KEY-----");
    assert Ascii(" ") == [0x20];
  }

  lemma WordsWithoutSpace()
    ensures JsStrings.NoRegexSpace(Ascii("-----BEGIN"))
    ensures JsStrings.NoRegexSpace(Ascii("PUBLIC"))
    ensures JsStrings.NoRegexSpace(Ascii("KEY-----"))
  {
  }

  /** Three space-free words joined by single spaces lose exactly the spaces. */
  lemma {:induction false} SqueezeTwoSpaces(head: JsString, mid: JsString, tail: JsString)
    requires JsStrings.NoRegexSpace(head) && JsStrings.NoRegexSpace(mid) && JsStrings.NoRegexSpace(tail)
    ensures JsStrings.RemoveRegexSpace(head + [0x20] + mid + [0x20] + tail) == head + mid + tail
  {
    var space: JsString := [0x20];
    assert JsStrings.RemoveRegexSpace(space) == [] by {
      assert space[1..] == [];
    }
    calc {
      JsStrings.RemoveRegexSpace(head + space + mid + space + tail);
      { JsStrings.RemoveRegexSpaceAppend(head + space + mid + space, tail); }
      JsStrings.RemoveRegexSpace(head + space + mid + space) + tail;
      { JsStrings.RemoveRegexSpaceAppend(head + space + mid, space); }
      JsStrings.RemoveRegexSpace(head + space + mid) + tail;
      { JsStrings.RemoveRegexSpaceAppend(head + space, mid); }
      JsStrings.RemoveRegexSpace(head + space) + mid + tail;
      { JsStrings.RemoveRegexSpaceAppend(head, space); }
      head + mid + tail;
    }
  }

  lemma SqueezedLiteral()
    ensures Ascii("-----BEGINPUBLICKEY-----") == Ascii("-----BEGIN") + Ascii("PUBLIC") + Ascii("KEY-----")
  {
    assert "-----BEGINPUBLICKEY-----" == "-----BEGIN" + "PUBLIC" + "KEY-----";
    AsciiAppend("-----BEGIN", "PUBLIC");
    AsciiAppend("-----BEGIN" + "PUBLIC", "KEY-----");
  }

  /** Only the first BEGIN marker is removed: a second one survives, with its
      inner spaces squeezed out by the whitespace pass, ahead of any text
      without `-` (which holds no END marker) that follows it. */
  lemma {:induction false} CleanPemRemovesFirstMarkerOnly(body: JsString)
    requires forall i | 0 <= i < |body| :: body[i] != '-' as int
    ensures CleanPem(BeginMarker + BeginMarker + body)
         == Ascii("-----BEGINPUBLICKEY-----") + JsStrings.RemoveRegexSpace(body)
  {
    JsStrings.RemoveFirstOfPrefix(BeginMarker, BeginMarker + body);
    assert BeginMarker + BeginMarker + body == BeginMarker + (BeginMarker + body);
    NoEndMarkerAfterBegin(body);
    JsStrings.RemoveRegexSpaceAppend(BeginMarker, body);
    SqueezedBeginMarker();
  }

  /** The END marker occurs neither inside the BEGIN marker nor across its end
      into text without `-`, since the END marker ends in `-`. */
  lemma {:induction false} NoEndMarkerAfterBegin(body: JsString)
    requires forall i | 0 <= i < |body| :: body[i] != '-' as int
    ensures JsStrings.RemoveFirst(BeginMarker + body, EndMarker) == BeginMarker + body
  {
    var s := BeginMarker + body;
    var n := |EndMarker|;
    EndMarkerNotInBeginMarker();
    assert EndMarker[n - 1] == '-' as int;
    forall i ensures !JsStrings.OccursAt(s, EndMarker, i) {
      if 0 <= i && i + n <= |s| {
        if i + n <= |BeginMarker| {
          assert s[i..i + n] == BeginMarker[i..i + n];
          assert !JsStrings.OccursAt(BeginMarker, EndMarker, i);
        } else {
          assert s[i..i + n][n - 1] == body[i + n - 1 - |BeginMarker|];
        }
      }
    }
  }

  /** The two removals of `cleanPem` on text around two markers that start
      with a code unit `c` which the text before the second marker lacks:
      both markers go, and the surrounding text is kept in order. */
  lemma RemoveMarkers(x: JsString, p: JsString, body: JsString, q: JsString, trailer: JsString, c: CodeUnit)
    requires p != [] && p[0] == c && q != [] && q[0] == c
    requires forall i | 0 <= i < |x| :: x[i] != c
    requires forall i | 0 <= i < |body| :: body[i] != c
    ensures JsStrings.RemoveFirst(JsStrings.RemoveFirst(x + p + body + q + trailer, p), q) == x + body + trailer
  {
    var rest := body + q + trailer;
    var front := x + body;
    assert x + p + body + q + trailer == x + p + rest;
    JsStrings.RemoveFirstAfter(x, p, rest);
    assert x + rest == front + q + trailer;
    assert forall i | 0 <= i < |front| :: front[i] != q[0] by {
      forall i | 0 <= i < |front| ensures front[i] != q[0] {
        if i >= |x| {
          assert front[i] == body[i - |x|];
        }
      }
    }
    JsStrings.RemoveFirstAfter(front, q, trailer);
  }

  /** A PEM document with no `-` before the BEGIN marker or in its body:
      `cleanPem` leaves exactly the text around the markers, without its
      whitespace. */
  lemma {:induction false} CleanPemOfDocument(x: JsString, body: JsString, trailer: JsString)
    requires forall i | 0 <= i < |x| :: x[i] != '-' as int
    requires forall i | 0 <= i < |body| :: body[i] != '-' as int
    ensures CleanPem(x + BeginMarker + body + EndMarker + trailer)
         == JsStrings.RemoveRegexSpace(x) + JsStrings.RemoveRegexSpace(body) + JsStrings.RemoveRegexSpace(trailer)
  {
    RemoveMarkers(x, BeginMarker, body, EndMarker, trailer, '-' as int);
    JsStrings.RemoveRegexSpaceAppend(x + body, trailer);
    JsStrings.RemoveRegexSpaceAppend(x, body);
  }

  /** A PEM document surrounded by whitespace only, whose body has no `-`,
      is cleaned to its body without whitespace. */
  lemma {:induction false} CleanPemOfWrappedBody(x: JsString, body: JsString, trailer: JsString)
    requires JsStrings.RemoveRegexSpace(x) == []
    requires forall i | 0 <= i < |body| :: body[i] != '-' as int
    requires JsStrings.RemoveRegexSpace(trailer) == []
    ensures CleanPem(x + BeginMarker + body + EndMarker + trailer) == JsStrings.RemoveRegexSpace(body)
  {
    assert forall i | 0 <= i < |x| :: x[i] != '-' as int by {
      JsStrings.RemoveRegexSpaceEmpty(x);
    }
    CleanPemOfDocument(x, body, trailer);
    assert [] + JsStrings.RemoveRegexSpace(body) + [] == JsStrings.RemoveRegexSpace(body);
  }

  /** The public-key import path of src/utils/keyManager.ts: a PEM document
      whose body is the Base64 of `der`, broken into lines in any way and
      surrounded by whitespace only, is cleaned and decoded back to `der`. */
  lemma {:induction false} ImportedPemDecodes(der: seq<byte>, x: JsString, body: JsString, trailer: JsString)
    requires JsStrings.RemoveRegexSpace(x) == []
    requires forall i | 0 <= i < |body| :: body[i] != '-' as int
    requires JsStrings.RemoveRegexSpace(body) == BufferToBase64(der)
    requires JsStrings.RemoveRegexSpace(trailer) == []
    ensures Base64ToUint8Array(CleanPem(x + BeginMarker + body + EndMarker + trailer)) == Ok(der)
  {
    CleanPemOfWrappedBody(x, body, trailer);
    Base64RoundTrip(der);
  }

  // ---------------------------------------------------------------------------
  // String Base64 wrappers
  // ---------------------------------------------------------------------------

  /** `base64encode(s)`: `btoa(s)`; throws InvalidCharacterError exactly when a
      code unit exceeds 0xFF. */
  function Base64Encode(s: JsString): (r: Result<JsString>)
    ensures r.Ok? <==> IsLatin1(s)
    ensures r.Err? ==> r.error == InvalidCharacterError
    ensures r.Ok? ==> r.value == WebBase64.Encode(Latin1Bytes(s))
  {
    WebBase64.Btoa(s)
  }

  /** `base64decode(s)`: `atob(s)`, a binary string of the decoded bytes. */
  function Base64Decode(s: JsString): (r: Result<JsString>)
    ensures r.Ok? <==> WebBase64.ForgivingDecode(s).Some?
    ensures r.Ok? ==> IsLatin1(r.value) && Some(Latin1Bytes(r.value)) == WebBase64.ForgivingDecode(s)
  {
    var r := WebBase64.Atob(s);
    if r.Ok? then Latin1RoundTrip(WebBase64.ForgivingDecode(s).value); r else r
  }

  /** `base64decode` undoes `base64encode` on every string of code units up to 0xFF. */
  lemma {:induction false} Base64StringRoundTrip(s: JsString)
    requires IsLatin1(s)
    ensures Base64Encode(s).Ok? && Base64Decode(Base64Encode(s).value) == Ok(s)
  {
    WebBase64.AtobBtoa(s);
  }

  /** `base64encode` throws on any code unit above 0xFF. */
  lemma Base64EncodeRejectsWideUnit(s: JsString, i: nat)
    requires i < |s| && s[i] > 0xFF
    ensures Base64Encode(s) == Err(InvalidCharacterError)
  {
  }

  // ---------------------------------------------------------------------------
  // UTF-8
  // ---------------------------------------------------------------------------

  /** `encodeUTF8(s)`: the TextEncoder output, well-formed UTF-8 whose decoding
      is the string's scalar values, at most 3 bytes per code unit. */
  function EncodeUTF8(s: JsString): (r: seq<byte>)
    ensures TextEncoder.Decode(r) == Some(TextEncoder.ScalarValues(s))
    ensures |r| <= 3 * |s|
  {
    TextEncoder.EncodeIsWellFormed(s);
    TextEncoder.EncodeLengthBound(s);
    TextEncoder.Encode(s)
  }
}
