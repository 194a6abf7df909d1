/**
 * The few Python string operations the ingestion pipeline relies on:
 * `str.rfind`, `str.lower` (restricted to ASCII), and `str.replace(old, "")`.
 */
module Text {

  /** `s.rfind(c)`: the index of the last occurrence of `c`, or -1. */
  function RFind(s: string, c: char): (r: int)
    ensures -1 <= r < |s|
    ensures r >= 0 ==> s[r] == c
    ensures forall j :: r < j < |s| ==> s[j] != c
  {
    if |s| == 0 then -1
    else if s[|s| - 1] == c then |s| - 1
    else RFind(s[..|s| - 1], c)
  }

  /** Lower-casing of one character; only ASCII letters are folded. */
  function LowerChar(c: char): char
  {
    if 'A' <= c <= 'Z' then (c as int + 32) as char else c
  }

  /** `s.lower()` for ASCII text. */
  function Lower(s: string): string
  {
    seq(|s|, i requires 0 <= i < |s| => LowerChar(s[i]))
  }

  /** Lower-casing never moves or creates a dot, so `rfind('.')` sees the same index. */
  lemma {:induction false} RFindLower(s: string)
    ensures RFind(Lower(s), '.') == RFind(s, '.')
    decreases |s|
  {
    if |s| > 0 {
      assert Lower(s)[..|s| - 1] == Lower(s[..|s| - 1]);
      RFindLower(s[..|s| - 1]);
    }
  }

  /** `pat in s`: `pat` occurs somewhere in `s` as a contiguous block. */
  predicate Occurs(pat: string, s: string)
    decreases |s|
  {
    |pat| <= |s| && (s[..|pat|] == pat || Occurs(pat, s[1..]))
  }

  /**
   * `s.replace(pat, "")`: every occurrence of `pat`, found left to right
   * without overlap, is deleted.
   */
  function RemoveAll(s: string, pat: string): (r: string)
    requires |pat| > 0
    ensures |r| <= |s|
    ensures Occurs(pat, s) ==> |r| < |s|
    ensures !Occurs(pat, s) ==> r == s
    decreases |s|
  {
    if |s| == 0 then ""
    else if |pat| <= |s| && s[..|pat|] == pat then RemoveAll(s[|pat|..], pat)
    else [s[0]] + RemoveAll(s[1..], pat)
  }

  /** No proper suffix of `pat` is also a prefix of it: its first character never reappears. */
  predicate HeadUnique(pat: string)
  {
    |pat| > 0 && forall k :: 0 < k < |pat| ==> pat[k] != pat[0]
  }

  /**
   * Appending a pattern whose first character does not reappear in it adds
   * exactly one occurrence and creates none across the seam, so deleting all
   * occurrences of `s + pat` is deleting all occurrences of `s`.
   */
  lemma {:induction false} RemoveAllAppended(s: string, pat: string)
    requires HeadUnique(pat)
    ensures RemoveAll(s + pat, pat) == RemoveAll(s, pat)
    decreases |s|
  {
    var t := s + pat;
    if |s| == 0 {
      assert t == pat;
      assert t[..|pat|] == pat;
      assert t[|pat|..] == "";
    } else if |pat| <= |s| && s[..|pat|] == pat {
      assert t[..|pat|] == pat;
      assert t[|pat|..] == s[|pat|..] + pat;
      RemoveAllAppended(s[|pat|..], pat);
    } else {
      assert !(|pat| <= |t| && t[..|pat|] == pat) by {
        if |s| < |pat| && |pat| <= |t| {
          assert t[|s|] == pat[0];
        } else if |pat| <= |s| {
          assert s[..|pat|] == t[..|pat|];
        }
      }
      assert t[0] == s[0];
      assert t[1..] == s[1..] + pat;
      RemoveAllAppended(s[1..], pat);
    }
  }
}
