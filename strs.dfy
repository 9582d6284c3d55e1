/** The pieces of Go's `strings` package the template loaders use to test and
    strip a file-name suffix. */
module Strs {

  /** `strings.HasSuffix`. */
  predicate HasSuffix(s: string, suffix: string)
  {
    |suffix| <= |s| && s[|s| - |suffix|..] == suffix
  }

  /** `strings.TrimRight`: drops trailing characters while they belong to the
      character SET `cutset`; the order of `cutset` plays no part. */
  function TrimRight(s: string, cutset: string): (r: string)
    ensures |r| <= |s| && r == s[..|r|]
    ensures r != [] ==> r[|r| - 1] !in cutset
    ensures forall i :: |r| <= i < |s| ==> s[i] in cutset
  {
    if s != [] && s[|s| - 1] in cutset then TrimRight(s[..|s| - 1], cutset) else s
  }

  /** `strings.TrimSuffix`: drops `suffix` once, when `s` ends with it. */
  function TrimSuffix(s: string, suffix: string): (r: string)
    ensures HasSuffix(s, suffix) ==> r + suffix == s
    ensures !HasSuffix(s, suffix) ==> r == s
  {
    if HasSuffix(s, suffix) then s[..|s| - |suffix|] else s
  }

  /** Appending a suffix and trimming it again gives the name back. */
  lemma TrimSuffixRoundTrip(n: string, suffix: string)
    ensures HasSuffix(n + suffix, suffix) && TrimSuffix(n + suffix, suffix) == n
  {
    assert (n + suffix)[|n|..] == suffix;
    assert (n + suffix)[..|n|] == n;
  }

  /** Two names carrying the suffix are told apart by what TrimSuffix leaves. */
  lemma TrimSuffixInjective(a: string, b: string, suffix: string)
    requires HasSuffix(a, suffix) && HasSuffix(b, suffix)
    requires TrimSuffix(a, suffix) == TrimSuffix(b, suffix)
    ensures a == b
  {
  }

  /** Trimming a second time removes nothing more: the result of TrimRight
      never ends in a cutset character. */
  lemma TrimRightIdempotent(s: string, cutset: string)
    ensures TrimRight(TrimRight(s, cutset), cutset) == TrimRight(s, cutset)
  {
  }

  /** Whatever comes before a stretch of cutset characters, TrimRight ends at
      the same place: the name's tail is not examined as a string. */
  lemma {:induction false} TrimRightDropsCutsetTail(s: string, t: string, cutset: string)
    requires forall i :: 0 <= i < |t| ==> t[i] in cutset
    ensures TrimRight(s + t, cutset) == TrimRight(s, cutset)
  {
    if t != [] {
      var u := t[..|t| - 1];
      assert (s + t)[..|s + t| - 1] == s + u;
      assert (s + t)[|s + t| - 1] == t[|t| - 1];
      TrimRightDropsCutsetTail(s, u, cutset);
    } else {
      assert s + t == s;
    }
  }
}
