/** src/utils/helpers.js: the older JavaScript copy of the Base64 byte codec.
    Its two functions are written exactly as in helpers.ts; the lemmas below
    state their properties and that the two copies agree on every input.
 */
module HelpersJs {
  import opened JsCore
  import WebBase64
  import Helpers

  /** `base64ToUint8Array(b64)`: each code unit of `atob(b64)` becomes one
      element, equal to it (no reduction modulo 256 ever changes a value,
      since `atob` yields code units up to 0xFF). */
  function Base64ToUint8Array(b64: JsString): (r: Result<seq<byte>>)
    ensures r.Ok? <==> WebBase64.Atob(b64).Ok?
    ensures r.Ok? ==> |r.value| == |WebBase64.Atob(b64).value|
    ensures r.Ok? ==> forall i | 0 <= i < |r.value| :: r.value[i] == WebBase64.Atob(b64).value[i]
  {
    match WebBase64.Atob(b64)
    case Err(e) => Err(e)
    case Ok(binary) => Ok(CharCodesToUint8(binary))
  }

  /** `bufferToBase64(buffer)`: never throws; 4 * ceil(n / 3) characters, all
      from the alphabet or `=`. */
  function BufferToBase64(buffer: seq<byte>): (r: JsString)
    ensures |r| == 4 * ((|buffer| + 2) / 3)
    ensures forall i | 0 <= i < |r| :: WebBase64.IsAlphabet(r[i]) || r[i] == WebBase64.Pad
  {
    WebBase64.Btoa(FromCharCodes(buffer)).value
  }

  /** The JavaScript and the TypeScript copies compute the same results. */
  lemma CopiesAgree(b64: JsString, buffer: seq<byte>)
    ensures Base64ToUint8Array(b64) == Helpers.Base64ToUint8Array(b64)
    ensures BufferToBase64(buffer) == Helpers.BufferToBase64(buffer)
  {
  }

  /** Decoding what `bufferToBase64` produced gives back the bytes. */
  lemma {:induction false} RoundTrip(b: seq<byte>)
    ensures Base64ToUint8Array(BufferToBase64(b)) == Ok(b)
  {
    CopiesAgree(BufferToBase64(b), b);
    Helpers.Base64RoundTrip(b);
  }

  /** A final group of one byte ends in `==`, of two bytes in a single `=`;
      full groups carry no padding. */
  lemma {:induction false} TrailingGroupPadding(b: seq<byte>)
    ensures var r := BufferToBase64(b);
      && (|b| % 3 == 0 ==> forall i | 0 <= i < |r| :: r[i] != WebBase64.Pad)
      && (|b| % 3 == 1 ==> r[|r| - 2..] == [WebBase64.Pad, WebBase64.Pad] && WebBase64.IsAlphabet(r[|r| - 3]))
      && (|b| % 3 == 2 ==> r[|r| - 1] == WebBase64.Pad && WebBase64.IsAlphabet(r[|r| - 2]))
  {
    CopiesAgree([], b);
    Helpers.BufferToBase64Padding(b);
  }
}
