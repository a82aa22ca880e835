/** The two forms of `String.prototype.replace` that `cleanPem` uses, with an
    empty replacement: a regular expression without the `g` flag, which removes
    the leftmost match only, and `/\s+/g`, which removes every run of
    whitespace (so every whitespace code unit).
 */
module JsStrings {
  import opened JsCore

  /** `\s` of ECMAScript regular expressions: WhiteSpace and LineTerminator. */
  predicate IsRegexSpace(c: CodeUnit) {
    || c == 0x09 || c == 0x0A || c == 0x0B || c == 0x0C || c == 0x0D || c == 0x20
    || c == 0xA0 || c == 0x1680 || 0x2000 <= c <= 0x200A
    || c == 0x2028 || c == 0x2029 || c == 0x202F || c == 0x205F || c == 0x3000 || c == 0xFEFF
  }

  predicate NoRegexSpace(s: JsString) {
    forall i | 0 <= i < |s| :: !IsRegexSpace(s[i])
  }

  /** `a` can be obtained from `b` by deleting code units. */
  predicate Subsequence(a: JsString, b: JsString)
    decreases |b|
  {
    if a == [] then true
    else if b == [] then false
    else (a[0] == b[0] && Subsequence(a[1..], b[1..])) || Subsequence(a, b[1..])
  }

  /** `s.replace(/\s+/g, "")`: every whitespace code unit removed, the rest kept in order. */
  function RemoveRegexSpace(s: JsString): (r: JsString)
    ensures |r| <= |s| && NoRegexSpace(r)
    ensures NoRegexSpace(s) ==> r == s
    decreases |s|
  {
    if s == [] then []
    else if IsRegexSpace(s[0]) then RemoveRegexSpace(s[1..])
    else [s[0]] + RemoveRegexSpace(s[1..])
  }

  /** `pat` occurs in `s` starting at index `i`. */
  predicate OccursAt(s: JsString, pat: JsString, i: int) {
    0 <= i && i + |pat| <= |s| && s[i..i + |pat|] == pat
  }

  /** The leftmost index at or after `from` where `pat` occurs, if any. */
  function FindFrom(s: JsString, pat: JsString, from: nat): (r: Option<nat>)
    ensures r.Some? ==> from <= r.value && OccursAt(s, pat, r.value)
    ensures r.Some? ==> forall j | from <= j < r.value :: !OccursAt(s, pat, j)
    ensures r.None? ==> forall j | from <= j :: !OccursAt(s, pat, j)
    decreases |s| - from
  {
    if from + |pat| > |s| then None
    else if s[from..from + |pat|] == pat then Some(from)
    else FindFrom(s, pat, from + 1)
  }

  /** `s.replace(re, "")` for a regular expression `re` without flags that
      matches exactly the literal `pat`: the leftmost occurrence is removed and
      any later one kept; without an occurrence `s` is returned unchanged. */
  function RemoveFirst(s: JsString, pat: JsString): (r: JsString)
    ensures (forall i :: !OccursAt(s, pat, i)) ==> r == s
    ensures (exists i :: OccursAt(s, pat, i)) ==>
      exists i :: OccursAt(s, pat, i) && (forall j | 0 <= j < i :: !OccursAt(s, pat, j))
        && r == s[..i] + s[i + |pat|..]
  {
    match FindFrom(s, pat, 0)
    case None => s
    case Some(i) =>
      assert OccursAt(s, pat, i) && forall j | 0 <= j < i :: !OccursAt(s, pat, j);
      s[..i] + s[i + |pat|..]
  }

  // ---------------------------------------------------------------------------
  // Subsequences
  // ---------------------------------------------------------------------------

  lemma {:induction false} SubsequenceOfSelf(s: JsString)
    ensures Subsequence(s, s)
    decreases |s|
  {
    if s != [] {
      SubsequenceOfSelf(s[1..]);
    }
  }

  lemma {:induction false} SubsequenceOfSuffix(a: JsString, y: JsString, z: JsString)
    requires Subsequence(a, z)
    ensures Subsequence(a, y + z)
    decreases |y|
  {
    if y != [] && a != [] {
      SubsequenceOfSuffix(a, y[1..], z);
      assert (y + z)[1..] == y[1..] + z;
      assert Subsequence(a, (y + z)[1..]);
    } else if y == [] {
      assert y + z == z;
    }
  }

  lemma {:induction false} SubsequenceCons(x: JsString, a: JsString, b: JsString)
    requires Subsequence(a, b)
    ensures Subsequence(x + a, x + b)
    decreases |x|
  {
    if x != [] {
      SubsequenceCons(x[1..], a, b);
      assert (x + a)[1..] == x[1..] + a;
      assert (x + b)[1..] == x[1..] + b;
      assert (x + a)[0] == (x + b)[0];
      assert Subsequence((x + a)[1..], (x + b)[1..]);
    } else {
      assert x + a == a && x + b == b;
    }
  }

  /** Deleting a middle part leaves a subsequence. */
  lemma {:induction false} SubsequenceOfDeletion(x: JsString, y: JsString, z: JsString)
    ensures Subsequence(x + z, x + y + z)
  {
    SubsequenceOfSelf(z);
    SubsequenceOfSuffix(z, y, z);
    SubsequenceCons(x, z, y + z);
    assert x + (y + z) == x + y + z;
  }

  lemma {:induction false} SubsequenceTransitive(a: JsString, b: JsString, c: JsString)
    requires Subsequence(a, b) && Subsequence(b, c)
    ensures Subsequence(a, c)
    decreases |c|
  {
    if a != [] {
      assert b != [] && c != [];
      if b[0] == c[0] && Subsequence(b[1..], c[1..]) {
        if a[0] == b[0] && Subsequence(a[1..], b[1..]) {
          SubsequenceTransitive(a[1..], b[1..], c[1..]);
        } else {
          SubsequenceDropHead(b);
          SubsequenceTransitive(a, b[1..], c[1..]);
        }
      } else {
        SubsequenceTransitive(a, b, c[1..]);
      }
    }
  }

  /** A subsequence of `b[1..]` is a subsequence of `b` (by the definition's last case). */
  lemma {:induction false} SubsequenceDropHead(b: JsString)
    requires b != []
    ensures forall a :: Subsequence(a, b[1..]) ==> Subsequence(a, b)
  {
  }

  /** Removing whitespace keeps the rest as a subsequence. */
  lemma {:induction false} RemoveRegexSpaceIsSubsequence(s: JsString)
    ensures Subsequence(RemoveRegexSpace(s), s)
    decreases |s|
  {
    if s != [] {
      RemoveRegexSpaceIsSubsequence(s[1..]);
      var r := RemoveRegexSpace(s);
      if !IsRegexSpace(s[0]) {
        assert r[0] == s[0] && r[1..] == RemoveRegexSpace(s[1..]);
      }
    }
  }

  /** Removing whitespace distributes over concatenation. */
  lemma {:induction false} RemoveRegexSpaceAppend(s: JsString, t: JsString)
    ensures RemoveRegexSpace(s + t) == RemoveRegexSpace(s) + RemoveRegexSpace(t)
    decreases |s|
  {
    if s != [] {
      assert (s + t)[0] == s[0] && (s + t)[1..] == s[1..] + t;
      RemoveRegexSpaceAppend(s[1..], t);
    } else {
      assert s + t == t;
    }
  }

  /** Whitespace removal leaves nothing exactly when every code unit is
      whitespace. */
  lemma {:induction false} RemoveRegexSpaceEmpty(s: JsString)
    ensures RemoveRegexSpace(s) == [] <==> forall i | 0 <= i < |s| :: IsRegexSpace(s[i])
    decreases |s|
  {
    if s != [] {
      RemoveRegexSpaceEmpty(s[1..]);
      assert forall i | 1 <= i < |s| :: s[i] == s[1..][i - 1];
    }
  }

  /** Removing the first occurrence keeps the rest as a subsequence. */
  lemma {:induction false} RemoveFirstIsSubsequence(s: JsString, pat: JsString)
    ensures Subsequence(RemoveFirst(s, pat), s)
  {
    match FindFrom(s, pat, 0)
    case None => SubsequenceOfSelf(s);
    case Some(i) =>
      var x, y, z := s[..i], s[i..i + |pat|], s[i + |pat|..];
      SubsequenceOfDeletion(x, y, z);
      assert s == x + y + z;
  }

  /** A pattern at the very start is the occurrence removed. */
  lemma RemoveFirstOfPrefix(pat: JsString, rest: JsString)
    ensures RemoveFirst(pat + rest, pat) == rest
  {
    var s := pat + rest;
    assert OccursAt(s, pat, 0) by {
      assert s[0..|pat|] == pat;
    }
    assert s[|pat|..] == rest;
  }

  /** When the text before `pat` never holds the pattern's first code unit,
      that `pat` is the occurrence removed. */
  lemma {:induction false} RemoveFirstAfter(x: JsString, pat: JsString, y: JsString)
    requires pat != [] && forall i | 0 <= i < |x| :: x[i] != pat[0]
    ensures RemoveFirst(x + pat + y, pat) == x + y
  {
    var s := x + pat + y;
    assert OccursAt(s, pat, |x|) by {
      assert s[|x|..|x| + |pat|] == pat;
    }
    forall j | 0 <= j < |x| ensures !OccursAt(s, pat, j) {
      if j + |pat| <= |s| {
        assert s[j..j + |pat|][0] == x[j];
      }
    }
    assert s[..|x|] == x;
    assert s[|x| + |pat|..] == y;
  }

  /** A pattern containing a whitespace code unit never occurs in a string without one. */
  lemma {:induction false} NoOccurrenceWithoutSpace(s: JsString, pat: JsString, k: nat)
    requires NoRegexSpace(s) && k < |pat| && IsRegexSpace(pat[k])
    ensures forall i :: !OccursAt(s, pat, i)
  {
    forall i ensures !OccursAt(s, pat, i) {
      if 0 <= i && i + |pat| <= |s| {
        assert s[i..i + |pat|][k] == s[i + k];
      }
    }
  }
}
