/** `uuidv4` of src/store.js: every `0`, `1` and `8` of the template
    "10000000-1000-4000-8000-100000000000" is replaced, left to right, by the
    hex digit of `c ^ (r & (15 >> c / 4))`, where `c` is the digit's value and
    `r` a fresh random byte. The random bytes are a parameter here, one per
    replaced character. The result is a version-4 UUID in the sense of
    section 5.4 of RFC 9562 (section 4.4 of RFC 4122).
 */
module Store {
  import opened JsCore

  const Template: JsString := Ascii("10000000-1000-4000-8000-100000000000")

  /** The characters `/[018]/` matches. */
  predicate IsRandomSlot(u: CodeUnit) {
    u == 0x30 || u == 0x31 || u == 0x38
  }

  /** Number of characters of `t` the regular expression replaces, hence random bytes drawn. */
  function SlotCount(t: JsString): nat
    decreases |t|
  {
    if t == [] then 0 else (if IsRandomSlot(t[0]) then 1 else 0) + SlotCount(t[1..])
  }

  /** `+c ^ r & 15 >> +c / 4`, parsed as `c ^ (r & (15 >> (c / 4)))`: `c / 4` is
      0, 0.25 or 2 and the shift truncates it, so the mask is 15 for `0` and `1`
      and 3 for `8`. */
  function Nibble(c: bv8, r: bv8): (d: bv8)
    requires c == 0 || c == 1 || c == 8
    ensures d < 16
  {
    c ^ (r & (15 >> (c / 4)))
  }

  /** `n.toString(16)` for a single digit: `0`..`9`, `a`..`f`. */
  function HexDigit(d: bv8): (u: CodeUnit)
    requires d < 16
    ensures IsLowerHex(u) && HexValue(u) == d
  {
    if d < 10 then 0x30 + d as int else 0x61 + (d as int - 10)
  }

  predicate IsLowerHex(u: CodeUnit) {
    0x30 <= u <= 0x39 || 0x61 <= u <= 0x66
  }

  function HexValue(u: CodeUnit): (d: bv8)
    requires IsLowerHex(u)
    ensures d < 16
  {
    (if u <= 0x39 then u - 0x30 else u - 0x61 + 10) as bv8
  }

  /** The replacement the callback computes for template character `u` and random byte `r`. */
  function Replacement(u: CodeUnit, r: bv8): (d: CodeUnit)
    requires IsRandomSlot(u)
    ensures IsLowerHex(d)
  {
    HexDigit(Nibble((u - 0x30) as bv8, r))
  }

  /** `t.replace(/[018]/g, callback)`, consuming one random byte per replaced
      character, left to right; `RewriteAt` states what it leaves at each position. */
  function Rewrite(t: JsString, random: seq<bv8>): (r: JsString)
    requires |random| == SlotCount(t)
    ensures |r| == |t|
    decreases |t|
  {
    if t == [] then []
    else if IsRandomSlot(t[0]) then [Replacement(t[0], random[0])] + Rewrite(t[1..], random[1..])
    else [t[0]] + Rewrite(t[1..], random)
  }

  /** Every character the regular expression does not match is copied, and the
      `k`-th matched one is replaced by the callback's digit for `random[k]`. */
  lemma {:induction false} RewriteAt(t: JsString, random: seq<bv8>, i: nat)
    requires |random| == SlotCount(t) && i < |t|
    ensures !IsRandomSlot(t[i]) ==> Rewrite(t, random)[i] == t[i]
    ensures IsRandomSlot(t[i]) ==>
      (SlotCount(t[..i]) < |random| && Rewrite(t, random)[i] == Replacement(t[i], random[SlotCount(t[..i])]))
    decreases |t|
  {
    if i > 0 {
      var rest := if IsRandomSlot(t[0]) then random[1..] else random;
      RewriteAt(t[1..], rest, i - 1);
      assert t[..i][1..] == t[1..][..i - 1];
    }
  }

  /** `uuidv4()` with its 31 random bytes made explicit. */
  function Uuidv4(random: seq<bv8>): (r: JsString)
    requires |random| == 31
    ensures IsVersion4Uuid(r)
  {
    RewriteTemplateIsUuid(random);
    Rewrite(Template, random)
  }

  /** The rewrite of the template has the version-4 layout, whatever the random bytes. */
  lemma RewriteTemplateIsUuid(random: seq<bv8>)
    requires |random| == 31
    ensures SlotCount(Template) == 31 && IsVersion4Uuid(Rewrite(Template, random))
  {
    TemplateSlots();
    TemplateShape();
    RewriteIsUuid(Template, random);
  }

  /** Any template laid out like the one of `uuidv4` rewrites to a version-4 UUID. */
  lemma RewriteIsUuid(t: JsString, random: seq<bv8>)
    requires IsUuidTemplate(t) && |random| == SlotCount(t)
    ensures IsVersion4Uuid(Rewrite(t, random))
  {
    forall i | 0 <= i < 36 ensures UuidCharOk(Rewrite(t, random), i) {
      RewriteCharShape(t, random, i);
    }
  }

  /** What the rewrite leaves at one position of any template: the character
      itself when it is not replaced, otherwise a lowercase hex digit, and one
      of `8`, `9`, `a`, `b` in place of an `8`. */
  lemma RewriteCharShape(t: JsString, random: seq<bv8>, i: nat)
    requires |random| == SlotCount(t) && i < |t|
    ensures |Rewrite(t, random)| == |t|
    ensures !IsRandomSlot(t[i]) ==> Rewrite(t, random)[i] == t[i]
    ensures IsRandomSlot(t[i]) ==> IsLowerHex(Rewrite(t, random)[i])
    ensures t[i] == 0x38 ==> Rewrite(t, random)[i] in [0x38, 0x39, 0x61, 0x62]
  {
    RewriteAt(t, random, i);
    if IsRandomSlot(t[i]) {
      ReplacementShape(t[i], random[SlotCount(t[..i])]);
    }
  }

  // ---------------------------------------------------------------------------
  // The version-4 format
  // ---------------------------------------------------------------------------

  predicate IsHyphenPosition(i: int) { i == 8 || i == 13 || i == 18 || i == 23 }

  /** Position `i` of `s` is as section 5.4 of RFC 9562 and the 8-4-4-4-12
      layout demand: a hyphen at 8, 13, 18, 23; the version digit `4` at 14;
      a variant digit `8`, `9`, `a` or `b` at 19; a lowercase hex digit elsewhere. */
  predicate UuidCharOk(s: JsString, i: int)
    requires 0 <= i < |s|
  {
    if IsHyphenPosition(i) then s[i] == 0x2D
    else if i == 14 then s[i] == 0x34
    else if i == 19 then s[i] == 0x38 || s[i] == 0x39 || s[i] == 0x61 || s[i] == 0x62
    else IsLowerHex(s[i])
  }

  predicate IsVersion4Uuid(s: JsString) {
    |s| == 36 && forall i | 0 <= i < 36 :: UuidCharOk(s, i)
  }

  // ---------------------------------------------------------------------------
  // Properties
  // ---------------------------------------------------------------------------

  /** Hyphens at 8, 13, 18, 23, the version digit at 14, `8` at 19 and `0` or
      `1` everywhere else: the layout of the `uuidv4` template. */
  predicate IsUuidTemplate(t: JsString) {
    |t| == 36 && forall i | 0 <= i < 36 ::
      if IsHyphenPosition(i) then t[i] == 0x2D
      else if i == 14 then t[i] == 0x34
      else if i == 19 then t[i] == 0x38
      else t[i] == 0x30 || t[i] == 0x31
  }

  lemma TemplateShape()
    ensures IsUuidTemplate(Template)
  {
  }

  lemma {:induction false} SlotCountAppend(a: JsString, b: JsString)
    ensures SlotCount(a + b) == SlotCount(a) + SlotCount(b)
    decreases |a|
  {
    if a == [] {
      assert a + b == b;
    } else {
      assert (a + b)[1..] == a[1..] + b;
      SlotCountAppend(a[1..], b);
    }
  }

  lemma {:induction false} SlotCountAllSlots(a: JsString)
    requires forall i | 0 <= i < |a| :: IsRandomSlot(a[i])
    ensures SlotCount(a) == |a|
    decreases |a|
  {
    if a != [] {
      SlotCountAllSlots(a[1..]);
    }
  }

  /** Exactly 31 random bytes are drawn: one per `0`, `1` or `8` of the template. */
  lemma {:induction false} TemplateSlots()
    ensures SlotCount(Template) == 31
  {
    TemplateShape();
    assert Template == Template[..19] + Template[19..];
    SlotCountAppend(Template[..19], Template[19..]);
    SlotsBeforeVariant();
    SlotsFromVariant();
  }

  /** Four and twelve replaced characters follow, from the variant digit on. */
  lemma {:induction false} SlotsFromVariant()
    ensures SlotCount(Template[19..]) == 16
  {
    TemplateShape();
    var s := Template[19..];
    var p4, p5 := s[..4], s[5..];
    var h: JsString := [0x2D];
    assert s == p4 + h + p5;
    SlotCountAllSlots(p4);
    SlotCountAllSlots(p5);
    assert SlotCount(h) == 0 by { assert h[1..] == []; }
    SlotCountAppend(p4 + h, p5);
    SlotCountAppend(p4, h);
  }

  /** The callback's digit in plain arithmetic: the low four bits of the byte
      for `0`, the same with the lowest bit flipped for `1`, and 8 plus the low
      two bits for `8` (so the variant bits are 10 and the digit 8 to 11). */
  lemma NibbleValues(c: bv8, r: bv8)
    requires c == 0 || c == 1 || c == 8
    ensures c == 0 ==> Nibble(c, r) == r % 16
    ensures c == 1 ==> Nibble(c, r) == if r % 2 == 0 then r % 16 + 1 else r % 16 - 1
    ensures c == 8 ==> Nibble(c, r) == 8 + r % 4
  {
  }

  /** Every replacement is a lowercase hex digit, and the one for `8` is `8`, `9`, `a` or `b`. */
  lemma ReplacementShape(u: CodeUnit, r: bv8)
    requires IsRandomSlot(u)
    ensures IsLowerHex(Replacement(u, r))
    ensures u == 0x38 ==> Replacement(u, r) in [0x38, 0x39, 0x61, 0x62]
  {
    if u == 0x38 {
      var d := Nibble(8, r);
      NibbleValues(8, r);
      assert d == 8 || d == 9 || d == 10 || d == 11;
    }
  }

  /** Eight, four and three replaced characters precede the variant digit. */
  lemma {:induction false} SlotsBeforeVariant()
    ensures SlotCount(Template[..19]) == 15
  {
    TemplateShape();
    var p1, p2, p3 := Template[..8], Template[9..13], Template[15..18];
    var h: JsString := [0x2D];
    var hv: JsString := [0x2D, 0x34];
    assert Template[..19] == p1 + h + p2 + hv + p3 + h;
    SlotCountAllSlots(p1);
    SlotCountAllSlots(p2);
    SlotCountAllSlots(p3);
    assert SlotCount(h) == 0 by { assert h[1..] == []; }
    assert SlotCount(hv) == 0 by { assert hv[1..][1..] == []; }
    SlotCountAppend(p1 + h + p2 + hv + p3, h);
    SlotCountAppend(p1 + h + p2 + hv, p3);
    SlotCountAppend(p1 + h + p2, hv);
    SlotCountAppend(p1 + h, p2);
    SlotCountAppend(p1, h);
  }

  /** The variant digit at position 19 comes from the sixteenth random byte:
      8 plus its two low bits. */
  lemma VariantDigit(random: seq<bv8>)
    requires |random| == 31
    ensures Uuidv4(random)[19] == HexDigit(8 + random[15] % 4)
  {
    TemplateShape();
    TemplateSlots();
    SlotsBeforeVariant();
    RewriteAt(Template, random, 19);
    assert Uuidv4(random)[19] == Replacement(0x38, random[15]);
    NibbleValues(8, random[15]);
  }

  /** A random byte that makes the callback produce digit value `d`. */
  function Witness(c: bv8, d: bv8): (r: bv8)
    requires c == 0 || c == 1 || c == 8
    requires if c == 8 then 8 <= d <= 11 else 0 <= d < 16
    ensures Nibble(c, r) == d
  {
    if c == 8 then d - 8
    else if c == 1 then (if d % 2 == 0 then d + 1 else d - 1)
    else d
  }

  /** Every version-4 UUID in lowercase is a possible output: the generator
      reaches all 2^122 values the format leaves free. */
  lemma {:induction false} Uuidv4Surjective(u: JsString)
    requires IsVersion4Uuid(u)
    ensures exists random: seq<bv8> :: |random| == 31 && Uuidv4(random) == u
  {
    TemplateFits(u);
    TemplateSlots();
    var random := RewriteReaches(Template, u);
    Uuidv4IsRewrite(random);
  }

  lemma Uuidv4IsRewrite(random: seq<bv8>)
    requires |random| == 31
    ensures SlotCount(Template) == 31 && Uuidv4(random) == Rewrite(Template, random)
  {
    TemplateSlots();
  }

  /** Random bytes, one per slot of `t`, that make the rewrite produce `u`. */
  lemma RewriteReaches(t: JsString, u: JsString) returns (random: seq<bv8>)
    requires |t| == |u| && forall i | 0 <= i < |t| :: Fits(t, u, i)
    ensures |random| == SlotCount(t) && Rewrite(t, random) == u
  {
    random := Choose(t, u);
    RewriteChoose(t, u);
  }

  /** Every character of a version-4 UUID is one the rewrite can produce there. */
  lemma TemplateFits(u: JsString)
    requires IsVersion4Uuid(u)
    ensures |Template| == |u| && forall i | 0 <= i < |Template| :: Fits(Template, u, i)
  {
    TemplateShape();
    forall i | 0 <= i < 36 ensures Fits(Template, u, i) {
      assert UuidCharOk(u, i);
    }
  }

  /** Character `i` of `u` is one the rewrite can produce from template `t`. */
  predicate Fits(t: JsString, u: JsString, i: int)
    requires 0 <= i < |t| == |u|
  {
    if !IsRandomSlot(t[i]) then u[i] == t[i]
    else IsLowerHex(u[i]) && (t[i] == 0x38 ==> 8 <= HexValue(u[i]) <= 11)
  }

  /** The random bytes that make `Rewrite(t, _)` produce `u`. */
  function Choose(t: JsString, u: JsString): (random: seq<bv8>)
    requires |t| == |u| && forall i | 0 <= i < |t| :: Fits(t, u, i)
    ensures |random| == SlotCount(t)
    decreases |t|
  {
    if t == [] then []
    else
      FitsTail(t, u);
      assert Fits(t, u, 0);
      var rest := Choose(t[1..], u[1..]);
      if IsRandomSlot(t[0]) then [Witness((t[0] - 0x30) as bv8, HexValue(u[0]))] + rest else rest
  }

  lemma FitsTail(t: JsString, u: JsString)
    requires t != [] && |t| == |u| && forall i | 0 <= i < |t| :: Fits(t, u, i)
    ensures forall i | 0 <= i < |t| - 1 :: Fits(t[1..], u[1..], i)
  {
    forall i | 0 <= i < |t| - 1 ensures Fits(t[1..], u[1..], i) {
      assert Fits(t, u, i + 1);
    }
  }

  lemma {:induction false} RewriteChoose(t: JsString, u: JsString)
    requires |t| == |u| && forall i | 0 <= i < |t| :: Fits(t, u, i)
    ensures Rewrite(t, Choose(t, u)) == u
    decreases |t|
  {
    if t != [] {
      FitsTail(t, u);
      assert Fits(t, u, 0);
      var random, rest := Choose(t, u), Choose(t[1..], u[1..]);
      RewriteChoose(t[1..], u[1..]);
      if IsRandomSlot(t[0]) {
        var r := Witness((t[0] - 0x30) as bv8, HexValue(u[0]));
        assert random == [r] + rest;
        assert random[1..] == rest;
        HexDigitOfValue(u[0]);
        assert Replacement(t[0], r) == u[0];
        assert Rewrite(t, random) == [u[0]] + Rewrite(t[1..], rest);
      } else {
        assert random == rest;
        assert Rewrite(t, random) == [u[0]] + Rewrite(t[1..], rest);
      }
      assert u == [u[0]] + u[1..];
    }
  }

  lemma HexDigitOfValue(u: CodeUnit)
    requires IsLowerHex(u)
    ensures HexDigit(HexValue(u)) == u
  {
  }
}
