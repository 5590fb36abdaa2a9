/** String helpers the scraper relies on: URL prefixes and Go's
    `strings.TrimSpace`, whose notion of white space is `unicode.IsSpace`. */
module Strings {

  /** `p` is a prefix of `s`. */
  predicate IsPrefix(p: string, s: string) {
    |p| <= |s| && s[..|p|] == p
  }

  /** Go's `unicode.IsSpace`: the ASCII white-space characters, NEL, NBSP and
      the remaining characters with the Unicode White_Space property. */
  predicate IsSpace(c: char) {
    var n := c as int;
    || n == 0x20
    || 0x09 <= n <= 0x0D
    || n == 0x85
    || n == 0xA0
    || n == 0x1680
    || 0x2000 <= n <= 0x200A
    || n == 0x2028
    || n == 0x2029
    || n == 0x202F
    || n == 0x205F
    || n == 0x3000
  }

  /** Number of white-space characters at the front of `s`. */
  function LeadingSpaces(s: string): (n: nat)
    ensures n <= |s|
    ensures forall k :: 0 <= k < n ==> IsSpace(s[k])
    ensures n == |s| || !IsSpace(s[n])
  {
    if |s| > 0 && IsSpace(s[0]) then 1 + LeadingSpaces(s[1..]) else 0
  }

  /** Number of white-space characters at the back of `s`. */
  function TrailingSpaces(s: string): (n: nat)
    ensures n <= |s|
    ensures forall k :: |s| - n <= k < |s| ==> IsSpace(s[k])
    ensures n == |s| || !IsSpace(s[|s| - n - 1])
  {
    if |s| > 0 && IsSpace(s[|s| - 1]) then 1 + TrailingSpaces(s[..|s| - 1]) else 0
  }

  /** `strings.TrimSpace`: `s` without its leading and trailing white space.
      The end is searched for only in what follows the leading white space, so
      an all-white-space text trims to the empty string. */
  function TrimSpace(s: string): (r: string)
    ensures |r| <= |s|
  {
    var start := LeadingSpaces(s);
    s[start..|s| - TrailingSpaces(s[start..])]
  }

  /** The trimmed text is the slice of `s` right after its leading white
      space. */
  lemma TrimSpaceWindow(s: string)
    ensures LeadingSpaces(s) + |TrimSpace(s)| <= |s|
    ensures forall k :: 0 <= k < |TrimSpace(s)| ==> TrimSpace(s)[k] == s[LeadingSpaces(s) + k]
  {
  }

  /** Everything after the trimmed slice is white space. */
  lemma TrimSpaceTail(s: string)
    ensures forall k :: LeadingSpaces(s) + |TrimSpace(s)| <= k < |s| ==> IsSpace(s[k])
  {
    var lo := LeadingSpaces(s);
    var rest := s[lo..];
    var tr := TrailingSpaces(rest);
    forall k | lo + |rest| - tr <= k < |s|
      ensures IsSpace(s[k])
    {
      assert s[k] == rest[k - lo];
    }
  }

  /** A character that is not white space lies inside the trimmed slice. */
  lemma NonSpaceKept(s: string, j: nat)
    requires j < |s| && !IsSpace(s[j])
    ensures LeadingSpaces(s) <= j < LeadingSpaces(s) + |TrimSpace(s)|
  {
    TrimSpaceWindow(s);
    TrimSpaceTail(s);
  }

  /** A non-empty trimmed text does not end in white space. */
  lemma TrimSpaceLast(s: string)
    requires TrimSpace(s) != []
    ensures !IsSpace(TrimSpace(s)[|TrimSpace(s)| - 1])
  {
    var lo := LeadingSpaces(s);
    var rest := s[lo..];
    var tr := TrailingSpaces(rest);
    assert TrimSpace(s) == rest[..|rest| - tr];
    assert TrimSpace(s)[|TrimSpace(s)| - 1] == rest[|rest| - tr - 1];
  }

  /** The trimmed text neither starts nor ends with white space, and it is
      empty exactly when `s` is all white space. */
  lemma TrimSpaceEnds(s: string)
    ensures TrimSpace(s) == [] || (!IsSpace(TrimSpace(s)[0]) && !IsSpace(TrimSpace(s)[|TrimSpace(s)| - 1]))
    ensures TrimSpace(s) == [] <==> forall k :: 0 <= k < |s| ==> IsSpace(s[k])
  {
    var r := TrimSpace(s);
    TrimSpaceWindow(s);
    if r != [] {
      TrimSpaceLast(s);
      assert r[0] == s[LeadingSpaces(s)];
    } else {
      EmptyTrimIsAllLeading(s);
    }
  }

  /** If nothing survives trimming, the leading white space is all of `s`. */
  lemma EmptyTrimIsAllLeading(s: string)
    ensures TrimSpace(s) == [] ==> LeadingSpaces(s) == |s|
  {
    var lo := LeadingSpaces(s);
    var rest := s[lo..];
    if lo < |s| {
      assert rest[0] == s[lo];
      assert TrailingSpaces(rest) < |rest|;
    }
  }

  /** `n` is the number of leading white-space characters of `s` when the
      first `n` are white space and the next one is not. */
  lemma LeadingSpacesExact(s: string, n: nat)
    requires n <= |s|
    requires forall k :: 0 <= k < n ==> IsSpace(s[k])
    requires n == |s| || !IsSpace(s[n])
    ensures LeadingSpaces(s) == n
  {
  }

  /** `n` is the number of trailing white-space characters of `s` when the
      last `n` are white space and the one before them is not. */
  lemma TrailingSpacesExact(s: string, n: nat)
    requires n <= |s|
    requires forall k :: |s| - n <= k < |s| ==> IsSpace(s[k])
    requires n == |s| || !IsSpace(s[|s| - n - 1])
    ensures TrailingSpaces(s) == n
  {
  }

  /** Trimming twice trims nothing more. */
  lemma TrimSpaceIdempotent(s: string)
    ensures TrimSpace(TrimSpace(s)) == TrimSpace(s)
  {
    var r := TrimSpace(s);
    TrimSpaceEnds(s);
    assert LeadingSpaces(r) == 0;
    if r != [] {
      assert TrailingSpaces(r) == 0;
    }
  }

  /** Trimming strips exactly the white-space padding around a text that
      neither starts nor ends with white space. */
  lemma TrimSpacePadded(pre: string, text: string, post: string)
    requires forall k :: 0 <= k < |pre| ==> IsSpace(pre[k])
    requires forall k :: 0 <= k < |post| ==> IsSpace(post[k])
    requires |text| > 0 && !IsSpace(text[0]) && !IsSpace(text[|text| - 1])
    ensures TrimSpace(pre + text + post) == text
  {
    var s := pre + text + post;
    assert forall k :: 0 <= k < |pre| ==> s[k] == pre[k];
    assert s[|pre|] == text[0];
    LeadingSpacesExact(s, |pre|);
    var rest := text + post;
    assert s[|pre|..] == rest;
    assert forall k :: |text| <= k < |rest| ==> rest[k] == post[k - |text|];
    assert rest[|text| - 1] == text[|text| - 1];
    TrailingSpacesExact(rest, |post|);
    assert s[|pre|..|s| - |post|] == text;
  }
}
