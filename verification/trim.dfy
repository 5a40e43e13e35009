/** Python's `str.strip()` called with no arguments. */
module Trim {
  import opened Strings

  /** Python's `str.isspace()` on a single character: the characters
      Unicode classes as whitespace (Zs, or bidirectional class WS, B or S). */
  predicate IsSpace(c: char)
  {
    || c == ' '
    || '\t' <= c <= '\r'
    || '\U{1C}' <= c <= '\U{1F}'
    || c == '\U{85}'
    || c == '\U{A0}'
    || c == '\U{1680}'
    || '\U{2000}' <= c <= '\U{200A}'
    || c == '\U{2028}'
    || c == '\U{2029}'
    || c == '\U{202F}'
    || c == '\U{205F}'
    || c == '\U{3000}'
  }

  predicate AllSpace(s: string)
  {
    forall i :: 0 <= i < |s| ==> IsSpace(s[i])
  }

  /** Neither end of `s` is whitespace. */
  predicate Trimmed(s: string)
  {
    s == [] || (!IsSpace(s[0]) && !IsSpace(s[|s| - 1]))
  }

  /** How many whitespace characters `s` starts with. */
  function LeadingSpaces(s: string): (n: nat)
    ensures n <= |s| && AllSpace(s[..n])
    ensures n < |s| ==> !IsSpace(s[n])
    decreases |s|
  {
    if s == [] || !IsSpace(s[0]) then 0 else 1 + LeadingSpaces(s[1..])
  }

  /** How many whitespace characters `s` ends with. */
  function TrailingSpaces(s: string): (n: nat)
    ensures n <= |s| && AllSpace(s[|s| - n..])
    ensures n < |s| ==> !IsSpace(s[|s| - n - 1])
    decreases |s|
  {
    if s == [] || !IsSpace(s[|s| - 1]) then 0 else 1 + TrailingSpaces(s[..|s| - 1])
  }

  /** Python's `s.strip()`: `s` without its leading and trailing whitespace. */
  function Strip(s: string): (r: string)
    ensures Trimmed(r)
    ensures OccursAt(s, r, LeadingSpaces(s))
    ensures r == [] <==> AllSpace(s)
    ensures Trimmed(s) ==> r == s
  {
    var start := LeadingSpaces(s);
    var body := s[start..];
    var r := body[..|body| - TrailingSpaces(body)];
    assert s[start..start + |r|] == r;
    r
  }

  /** `Strip` is the one way of cutting `s` into whitespace, a trimmed
      middle and whitespace: whichever such cut is given, `Strip` returns
      its middle. */
  lemma StripUnique(s: string, i: nat, j: nat)
    requires i <= j <= |s|
    requires AllSpace(s[..i]) && AllSpace(s[j..]) && Trimmed(s[i..j])
    ensures Strip(s) == s[i..j]
  {
    if i == j {
      assert forall k :: 0 <= k < |s| ==> IsSpace(s[k]) by {
        forall k | 0 <= k < |s|
          ensures IsSpace(s[k])
        {
          if k < i {
            assert s[..i][k] == s[k];
          } else {
            assert s[j..][k - j] == s[k];
          }
        }
      }
    } else {
      assert s[i] == s[i..j][0];
      assert s[j - 1] == s[i..j][j - i - 1];
      LeadingSpacesIs(s, i);
      var body := s[i..];
      assert body[..j - i] == s[i..j];
      assert body[j - i..] == s[j..];
      TrailingSpacesIs(body, |s| - j);
      var trail := TrailingSpaces(body);
      assert body[..|body| - trail] == s[i..j];
    }
  }

  /** `LeadingSpaces` counts exactly the whitespace run at the start. */
  lemma {:induction false} LeadingSpacesIs(s: string, n: nat)
    requires n <= |s| && AllSpace(s[..n])
    requires n < |s| ==> !IsSpace(s[n])
    ensures LeadingSpaces(s) == n
    decreases n
  {
    if n > 0 {
      assert IsSpace(s[..n][0]);
      assert s[1..][..n - 1] == s[..n][1..];
      LeadingSpacesIs(s[1..], n - 1);
    }
  }

  /** `TrailingSpaces` counts exactly the whitespace run at the end. */
  lemma {:induction false} TrailingSpacesIs(s: string, n: nat)
    requires n <= |s| && AllSpace(s[|s| - n..])
    requires n < |s| ==> !IsSpace(s[|s| - n - 1])
    ensures TrailingSpaces(s) == n
    decreases n
  {
    if n > 0 {
      assert IsSpace(s[|s| - n..][n - 1]);
      var init := s[..|s| - 1];
      var run, tail := s[|s| - n..], init[|init| - (n - 1)..];
      forall t | 0 <= t < |tail|
        ensures IsSpace(tail[t])
      {
        assert tail[t] == run[t];
      }
      TrailingSpacesIs(init, n - 1);
    }
  }

  /** Stripping adds nothing: a pattern absent from `s` is absent from
      `Strip(s)`. */
  lemma StripKeepsAbsence(s: string, pat: string)
    requires !Contains(s, pat)
    ensures !Contains(Strip(s), pat)
  {
    var start := LeadingSpaces(s);
    var r := Strip(s);
    assert s[start..start + |r|] == r;
    SliceKeepsAbsence(s, start, start + |r|, pat);
  }
}
