/**
 The few pieces of Python string behaviour the tag codec relies on:
 the `\w` character class, `str.isspace` / `str.strip()`, and substring search.
 */
module Text {

  import opened PyValues

  /** A character of the regex class `\w` (ASCII letters, digits and underscore). */
  predicate IsWordChar(c: char) {
    ('a' <= c <= 'z') || ('A' <= c <= 'Z') || ('0' <= c <= '9') || c == '_'
  }

  /** A non-empty run of word characters: what `\w+` can match. */
  predicate IsWord(s: string) {
    |s| > 0 && forall k :: 0 <= k < |s| ==> IsWordChar(s[k])
  }

  /** Python's `str.isspace` for one character: Unicode categories Zs, B, S and WS. */
  predicate IsSpace(c: char) {
    ('\t' <= c <= '\r') || ('\U{1C}' <= c <= '\U{1F}') || c == ' '
    || c == '\U{85}' || c == '\U{A0}' || c == '\U{1680}'
    || ('\U{2000}' <= c <= '\U{200A}') || c == '\U{2028}' || c == '\U{2029}'
    || c == '\U{202F}' || c == '\U{205F}' || c == '\U{3000}'
  }

  predicate AllSpace(s: string) {
    forall k :: 0 <= k < |s| ==> IsSpace(s[k])
  }

  /** Neither end of `s` is whitespace: the shape every `strip()` result has. */
  predicate IsStripped(s: string) {
    |s| == 0 || (!IsSpace(s[0]) && !IsSpace(s[|s| - 1]))
  }

  /** Index of the first non-whitespace character of `s` at or after `i` (or `|s|`). */
  function SkipSpace(s: string, i: nat): (a: nat)
    requires i <= |s|
    ensures i <= a <= |s|
    ensures forall k :: i <= k < a ==> IsSpace(s[k])
    ensures a == |s| || !IsSpace(s[a])
    decreases |s| - i
  {
    if i == |s| || !IsSpace(s[i]) then i else SkipSpace(s, i + 1)
  }

  /** Index just past the last non-whitespace character of `s` in `[lo, b)` (or `lo`). */
  function SkipSpaceBack(s: string, lo: nat, b: nat): (e: nat)
    requires lo <= b <= |s|
    ensures lo <= e <= b
    ensures forall k :: e <= k < b ==> IsSpace(s[k])
    ensures e == lo || !IsSpace(s[e - 1])
    decreases b - lo
  {
    if b == lo || !IsSpace(s[b - 1]) then b else SkipSpaceBack(s, lo, b - 1)
  }

  /** Python's `s.strip()`: drop leading whitespace, then trailing whitespace. */
  function Strip(s: string): (r: string)
    ensures IsStripped(r)
    ensures exists a, b :: 0 <= a <= b <= |s| && r == s[a..b] && AllSpace(s[..a]) && AllSpace(s[b..])
  {
    var a := SkipSpace(s, 0);
    var b := SkipSpaceBack(s, a, |s|);
    s[a..b]
  }

  /**
   Strip is determined by its shape: whenever `s` splits into leading whitespace,
   a stripped middle and trailing whitespace, the middle is `Strip(s)`.
   */
  lemma StripUnique(s: string, a: nat, b: nat)
    requires a <= b <= |s|
    requires AllSpace(s[..a]) && AllSpace(s[b..]) && IsStripped(s[a..b])
    ensures Strip(s) == s[a..b]
  {
    var a' := SkipSpace(s, 0);
    if a < b {
      assert s[a..b][0] == s[a];
      assert a' == a by {
        forall k | 0 <= k < a ensures IsSpace(s[k]) { assert s[..a][k] == s[k]; }
      }
      assert s[a..b][b - a - 1] == s[b - 1];
      forall k | b <= k < |s| ensures IsSpace(s[k]) { assert s[b..][k - b] == s[k]; }
    } else {
      forall k | 0 <= k < |s| ensures IsSpace(s[k]) {
        if k < a { assert s[..a][k] == s[k]; } else { assert s[b..][k - b] == s[k]; }
      }
    }
  }

  /** A string with no whitespace at either end is left alone by `strip()`. */
  lemma StripFixesStripped(s: string)
    ensures Strip(s) == s <==> IsStripped(s)
  {
    if IsStripped(s) {
      assert s[..0] == [] && s[|s|..] == [] && s[0..|s|] == s;
      StripUnique(s, 0, |s|);
    }
  }

  /** Stripping twice is stripping once. */
  lemma StripIdempotent(s: string)
    ensures Strip(Strip(s)) == Strip(s)
  {
    StripFixesStripped(Strip(s));
  }

  /** `pat` occurs in `s` at position `i`. */
  predicate StartsAt(s: string, i: nat, pat: string) {
    i + |pat| <= |s| && s[i..i + |pat|] == pat
  }

  /** `pat` occurs somewhere in `s` (Python's `pat in s`). */
  predicate Occurs(pat: string, s: string) {
    exists i :: 0 <= i <= |s| && StartsAt(s, i, pat)
  }

  /** The first position at or after `j` where `pat` occurs in `s`, if any. */
  function FindFrom(s: string, j: nat, pat: string): (r: Option<nat>)
    requires j <= |s|
    ensures r.Some? ==> j <= r.value <= |s| && StartsAt(s, r.value, pat)
    decreases |s| - j
  {
    if StartsAt(s, j, pat) then Some(j)
    else if j + |pat| >= |s| then None
    else FindFrom(s, j + 1, pat)
  }

  /** `FindFrom` skips no occurrence: none before the one it reports, none at all when it
      reports nothing. */
  lemma {:induction false} FindFromSkipsNone(s: string, j: nat, pat: string)
    requires j <= |s|
    ensures FindFrom(s, j, pat).Some? ==> forall p :: j <= p < FindFrom(s, j, pat).value ==> !StartsAt(s, p, pat)
    ensures FindFrom(s, j, pat).None? ==> forall p :: j <= p ==> !StartsAt(s, p, pat)
    decreases |s| - j
  {
    if !StartsAt(s, j, pat) && j + |pat| < |s| {
      FindFromSkipsNone(s, j + 1, pat);
    }
  }

  /** No occurrence lies between the start of a search and what it reports. */
  lemma FindFromNoneBefore(s: string, j: nat, pat: string, k: nat)
    requires j <= |s| && FindFrom(s, j, pat) == Some(k)
    ensures forall p :: j <= p < k ==> !StartsAt(s, p, pat)
  {
    FindFromSkipsNone(s, j, pat);
  }

  /** A pattern found in a slice of `s` is found in `s`. */
  lemma OccursInSlice(pat: string, s: string, a: nat, b: nat)
    requires a <= b <= |s|
    requires Occurs(pat, s[a..b])
    ensures Occurs(pat, s)
  {
    var i :| 0 <= i <= b - a && StartsAt(s[a..b], i, pat);
    forall k | 0 <= k < |pat| ensures s[a + i + k] == pat[k] {
      assert s[a..b][i..i + |pat|][k] == pat[k];
    }
    assert StartsAt(s, a + i, pat);
  }

  /** Finding `a + b` at `i` is finding `a` at `i` and then `b` right after it. */
  lemma StartsAtConcat(s: string, i: nat, a: string, b: string)
    ensures StartsAt(s, i, a + b) <==> StartsAt(s, i, a) && StartsAt(s, i + |a|, b)
  {
    if StartsAt(s, i, a + b) {
      assert s[i..i + |a|] == (a + b)[..|a|];
      assert s[i + |a|..i + |a| + |b|] == (a + b)[|a|..];
    }
    if StartsAt(s, i, a) && StartsAt(s, i + |a|, b) {
      assert s[i..i + |a + b|] == s[i..i + |a|] + s[i + |a|..i + |a| + |b|];
    }
  }

  /** Occurrences are unaffected by cutting off a prefix of the text. */
  lemma StartsAtSuffix(s: string, i: nat, q: nat, pat: string)
    requires i <= |s|
    ensures StartsAt(s, i + q, pat) <==> StartsAt(s[i..], q, pat)
  {
    if i + q + |pat| <= |s| {
      assert s[i..][q..q + |pat|] == s[i + q..i + q + |pat|];
    }
  }

  /** An occurrence inside a slice is an occurrence in the whole text. */
  lemma StartsAtInSlice(s: string, a: nat, b: nat, q: nat, pat: string)
    requires a <= b <= |s| && StartsAt(s[a..b], q, pat)
    ensures StartsAt(s, a + q, pat)
  {
    forall k | 0 <= k < |pat| ensures s[a + q + k] == pat[k] {
      assert s[a..b][q..q + |pat|][k] == pat[k];
    }
    assert s[a + q..a + q + |pat|] == pat;
  }
}
