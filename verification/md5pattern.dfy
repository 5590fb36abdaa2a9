/** The README content classifier: does a text contain a run of 32 characters
    drawn from `[a-f0-9]` (the unanchored pattern `[a-f0-9]{32}`)? The pattern
    is stated directly as a predicate over windows of the text, with no regular
    expression engine. */
module Md5Pattern {
  import opened Strings

  /** Length of a hex-encoded MD5 digest. */
  const DigestLength: nat := 32

  /** The character class `[a-f0-9]`. */
  predicate IsLowerHex(c: char) {
    '0' <= c <= '9' || 'a' <= c <= 'f'
  }

  /** The 32 characters of `s` starting at `i` all lie in `[a-f0-9]`. */
  predicate HexRunAt(s: string, i: int) {
    0 <= i && i + DigestLength <= |s| &&
    forall k :: i <= k < i + DigestLength ==> IsLowerHex(s[k])
  }

  /** `containsPossibleMd5String`: some window of 32 characters is all hex. */
  predicate ContainsPossibleMd5String(s: string) {
    exists i | 0 <= i <= |s| - DigestLength :: HexRunAt(s, i)
  }

  /** A single left-to-right pass that tracks the length of the current hex
      run, the way a matcher for `[a-f0-9]{32}` scans its input. It answers
      exactly the window predicate. */
  method ScanForDigest(s: string) returns (found: bool)
    ensures found <==> ContainsPossibleMd5String(s)
    ensures found ==> |s| >= DigestLength
  {
    var run := 0;
    var i := 0;
    while i < |s|
      invariant 0 <= i <= |s|
      invariant 0 <= run < DigestLength && run <= i
      invariant forall k :: i - run <= k < i ==> IsLowerHex(s[k])
      invariant run < i ==> !IsLowerHex(s[i - run - 1])
      invariant forall j :: 0 <= j && j + DigestLength <= i ==> !HexRunAt(s, j)
    {
      if IsLowerHex(s[i]) {
        if run + 1 == DigestLength {
          assert HexRunAt(s, i + 1 - DigestLength);
          return true;
        }
        forall j | 0 <= j && j + DigestLength == i + 1
          ensures !HexRunAt(s, j)
        {
          assert j <= i - run - 1;
          assert !IsLowerHex(s[i - run - 1]);
        }
        run := run + 1;
      } else {
        forall j | 0 <= j && j + DigestLength == i + 1
          ensures !HexRunAt(s, j)
        {
          assert !IsLowerHex(s[i]);
        }
        run := 0;
      }
      i := i + 1;
    }
    return false;
  }

  /** No text shorter than a digest can match. */
  lemma ShortTextNeverMatches(s: string)
    requires |s| < DigestLength
    ensures !ContainsPossibleMd5String(s)
  {
  }

  /** For a text of exactly 32 characters the pattern holds iff every
      character is in `[a-f0-9]`; one foreign character rules it out. */
  lemma ExactDigestLength(s: string)
    requires |s| == DigestLength
    ensures ContainsPossibleMd5String(s) <==> forall k :: 0 <= k < |s| ==> IsLowerHex(s[k])
  {
    if forall k :: 0 <= k < |s| ==> IsLowerHex(s[k]) {
      assert HexRunAt(s, 0);
    }
  }

  /** A match survives any text put before or after it. */
  lemma MatchSurvivesContext(pre: string, s: string, post: string)
    requires ContainsPossibleMd5String(s)
    ensures ContainsPossibleMd5String(pre + s + post)
  {
    var i :| 0 <= i <= |s| - DigestLength && HexRunAt(s, i);
    var t := pre + s + post;
    forall k | |pre| + i <= k < |pre| + i + DigestLength
      ensures IsLowerHex(t[k])
    {
      assert t[k] == s[k - |pre|];
    }
    assert HexRunAt(t, |pre| + i);
  }

  /** A 32-character hex prefix followed by arbitrary text matches. */
  lemma DigestPrefixMatches(digest: string, rest: string)
    requires |digest| == DigestLength
    requires forall k :: 0 <= k < |digest| ==> IsLowerHex(digest[k])
    ensures ContainsPossibleMd5String(digest + rest)
  {
    assert HexRunAt(digest, 0);
    MatchSurvivesContext([], digest, rest);
    assert [] + digest + rest == digest + rest;
  }

  /** Thirty-two repeated 'z' characters do not match. */
  lemma RepeatedZDoesNotMatch()
    ensures !ContainsPossibleMd5String(seq(32, _ => 'z'))
  {
    var s := seq(32, _ => 'z');
    ExactDigestLength(s);
    assert !IsLowerHex(s[0]);
  }

  /** A bare MD5 digest (that of "this is a md5 string") matches. */
  lemma BareDigestMatches()
    ensures ContainsPossibleMd5String("2291bbced08a871637d950cd9112915d")
  {
    var d := "2291bbced08a871637d950cd9112915d";
    ExactDigestLength(d);
    assert HexRunAt(d, 0);
  }

  /** An ordinary sentence, shorter than a digest, does not match. */
  lemma SentenceDoesNotMatch()
    ensures !ContainsPossibleMd5String("this is not a md5 string")
  {
    ShortTextNeverMatches("this is not a md5 string");
  }

  /** Two digests (of "prefix" and of "postfix") with words and blanks
      between them match. */
  lemma DigestsAroundWordsMatch()
    ensures ContainsPossibleMd5String("851f5ac9941d720844d143ed9cfcf60a" + " and some other text "
                                      + "11e868acb4d0d3552993647c02ffc75f")
  {
    var d := "851f5ac9941d720844d143ed9cfcf60a";
    DigestPrefixMatches(d, " and some other text " + "11e868acb4d0d3552993647c02ffc75f");
    assert d + (" and some other text " + "11e868acb4d0d3552993647c02ffc75f")
        == d + " and some other text " + "11e868acb4d0d3552993647c02ffc75f";
  }

  /** Trimming white space never destroys a match: white space is not hex, so
      every hex window lies inside the trimmed text. */
  lemma TrimKeepsMatch(s: string)
    requires ContainsPossibleMd5String(s)
    ensures ContainsPossibleMd5String(TrimSpace(s))
  {
    var i :| 0 <= i <= |s| - DigestLength && HexRunAt(s, i);
    var r := TrimSpace(s);
    var lo := LeadingSpaces(s);
    var last := i + DigestLength - 1;
    assert IsLowerHex(s[i]) && IsLowerHex(s[last]);
    NonSpaceKept(s, i);
    NonSpaceKept(s, last);
    TrimSpaceWindow(s);
    forall k | i - lo <= k < i - lo + DigestLength
      ensures IsLowerHex(r[k])
    {
      assert r[k] == s[lo + k];
    }
    assert HexRunAt(r, i - lo);
  }
}
