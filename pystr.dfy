/** Python `str` whitespace semantics used by the backend: the `\s` class of a
    `str` regular expression and `str.strip()` both test Py_UNICODE_ISSPACE. */
module PyStr {

  /** True for exactly the characters Python's `str.isspace` accepts. */
  predicate IsSpace(c: char) {
    c == ' ' || ('\t' <= c <= '\r') || ('\U{1c}' <= c <= '\U{1f}')
    || c == '\U{85}' || c == '\U{a0}' || c == '\U{1680}'
    || ('\U{2000}' <= c <= '\U{200a}') || c == '\U{2028}' || c == '\U{2029}'
    || c == '\U{202f}' || c == '\U{205f}' || c == '\U{3000}'
  }

  predicate AllSpace(s: string) {
    forall i :: 0 <= i < |s| ==> IsSpace(s[i])
  }

  /** No leading and no trailing whitespace: what `strip()` always returns. */
  predicate IsStripped(s: string) {
    s == [] || (!IsSpace(s[0]) && !IsSpace(s[|s| - 1]))
  }

  /** Number of whitespace characters at the front of `s`. */
  function LeadingSpace(s: string): (n: nat)
    ensures n <= |s| && (forall k :: 0 <= k < n ==> IsSpace(s[k]))
    ensures n < |s| ==> !IsSpace(s[n])
  {
    if |s| > 0 && IsSpace(s[0]) then 1 + LeadingSpace(s[1..]) else 0
  }

  /** Number of whitespace characters at the back of `s`. */
  function TrailingSpace(s: string): (n: nat)
    ensures n <= |s| && (forall k :: |s| - n <= k < |s| ==> IsSpace(s[k]))
    ensures n < |s| ==> !IsSpace(s[|s| - n - 1])
  {
    if |s| > 0 && IsSpace(s[|s| - 1]) then 1 + TrailingSpace(s[..|s| - 1]) else 0
  }

  lemma AllSpaceShorter(s: string, i: nat, j: nat)
    requires i <= j <= |s| && AllSpace(s[..j])
    ensures AllSpace(s[..i])
  {
    assert forall k :: 0 <= k < i ==> s[..i][k] == s[..j][k];
  }

  /** Any all-whitespace prefix is at most as long as the leading whitespace. */
  lemma {:induction false} LeadingSpaceIsLongest(s: string, i: nat)
    requires i <= |s| && AllSpace(s[..i])
    ensures i <= LeadingSpace(s)
  {
    if i > 0 {
      assert IsSpace(s[..i][0]);
      assert s[1..][..i - 1] == s[..i][1..];
      LeadingSpaceIsLongest(s[1..], i - 1);
    }
  }

  /** Whitespace up to `i` followed by a non-space at `i`: that is the leading whitespace. */
  lemma {:induction false} LeadingSpaceEndsAt(s: string, i: nat)
    requires i < |s| && AllSpace(s[..i]) && !IsSpace(s[i])
    ensures LeadingSpace(s) == i
  {
    if i > 0 {
      assert IsSpace(s[..i][0]);
      assert s[1..][..i - 1] == s[..i][1..];
      LeadingSpaceEndsAt(s[1..], i - 1);
    }
  }

  /** Python's `s.strip()` with no argument. */
  function Strip(s: string): (r: string)
    ensures IsStripped(r) && |r| <= |s|
  {
    var a := LeadingSpace(s);
    var t := s[a..];
    var b := TrailingSpace(t);
    if a == |s| then [] else
      assert !IsSpace(t[0]);
      assert b < |t|;
      t[..|t| - b]
  }

  /** Any split of `s` into whitespace, a stripped core and whitespace has
      `Strip(s)` as its core: `Strip` is determined by its two properties. */
  lemma StripUnique(s: string, a: nat, b: nat)
    requires a <= b <= |s|
    requires AllSpace(s[..a]) && AllSpace(s[b..]) && IsStripped(s[a..b])
    ensures Strip(s) == s[a..b]
  {
    var la := LeadingSpace(s);
    if a == b {
      assert AllSpace(s) by {
        forall i | 0 <= i < |s| ensures IsSpace(s[i]) {
          if i < a { assert s[..a][i] == s[i]; } else { assert s[b..][i - b] == s[i]; }
        }
      }
    } else {
      assert !IsSpace(s[a]) by { assert s[a..b][0] == s[a]; }
      assert la == a;
      var t := s[a..];
      var tb := TrailingSpace(t);
      var c := |s| - tb;
      assert !IsSpace(s[b - 1]) by { assert s[a..b][b - 1 - a] == s[b - 1]; }
      assert c == b;
      assert Strip(s) == t[..|t| - tb];
    }
  }

  lemma StripKeepsStripped(s: string)
    requires IsStripped(s)
    ensures Strip(s) == s
  {
    assert s[..0] == [] && s[|s|..] == [] && s[0..|s|] == s;
    StripUnique(s, 0, |s|);
  }

  lemma StripIdempotent(s: string)
    ensures Strip(Strip(s)) == Strip(s)
  {
    StripKeepsStripped(Strip(s));
  }

  /** `sub` occurs in `s` starting at position `a`. */
  predicate OccursAt(sub: string, s: string, a: nat) {
    a + |sub| <= |s| && s[a..a + |sub|] == sub
  }
}
