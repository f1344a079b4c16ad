/** String helpers with the semantics PHP gives them. */
module Text {

  /** strtolower on one character: only the ASCII letters change (PHP 8.2 or later, or the C locale). */
  function LowerChar(c: char): char {
    if 'A' <= c <= 'Z' then (c as int + 32) as char else c
  }

  /** strtolower on a whole string. */
  function ToLower(s: string): string {
    seq(|s|, i requires 0 <= i < |s| => LowerChar(s[i]))
  }

  /** No upper-case ASCII letter occurs in `s`. */
  predicate IsLower(s: string) {
    forall i :: 0 <= i < |s| ==> !('A' <= s[i] <= 'Z')
  }

  /** Two characters that are equal or are the two cases of one ASCII letter. */
  predicate SameUpToCase(x: char, y: char) {
    || x == y
    || ('A' <= x <= 'Z' && y as int == x as int + 32)
    || ('A' <= y <= 'Z' && x as int == y as int + 32)
  }

  /** Two strings that differ at most in the case of ASCII letters. */
  predicate EqualIgnoringCase(a: string, b: string) {
    |a| == |b| && forall i :: 0 <= i < |a| ==> SameUpToCase(a[i], b[i])
  }

  /** PHP truthiness of a string: only "" and "0" are falsy. */
  predicate Truthy(s: string) {
    s != "" && s != "0"
  }

  /** `needle` occurs in `hay` starting at position `i`. */
  predicate OccursAt(needle: string, hay: string, i: int) {
    0 <= i && i + |needle| <= |hay| && hay[i..i + |needle|] == needle
  }

  /** `needle` occurs contiguously in `hay`. */
  predicate IsSubstring(needle: string, hay: string) {
    exists i :: 0 <= i <= |hay| && OccursAt(needle, hay, i)
  }

  /** Lower-casing yields a lower-case string and leaves lower-case strings alone. */
  lemma ToLowerNormalizes(s: string)
    ensures IsLower(ToLower(s))
    ensures IsLower(s) ==> ToLower(s) == s
    ensures ToLower(ToLower(s)) == ToLower(s)
  {
    var l := ToLower(s);
    assert forall i :: 0 <= i < |l| ==> LowerChar(l[i]) == l[i];
    assert ToLower(l) == l;
  }

  /** Case-insensitive equality is exactly equality after strtolower. */
  lemma EqualIgnoringCaseIffSameLower(a: string, b: string)
    ensures EqualIgnoringCase(a, b) <==> ToLower(a) == ToLower(b)
  {
    if EqualIgnoringCase(a, b) {
      assert forall i :: 0 <= i < |a| ==> ToLower(a)[i] == ToLower(b)[i];
    }
    if ToLower(a) == ToLower(b) {
      forall i | 0 <= i < |a|
        ensures SameUpToCase(a[i], b[i])
      {
        assert ToLower(a)[i] == ToLower(b)[i];
      }
    }
  }
}
