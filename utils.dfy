/** The relative-time clean-up of lib/utils.ts: `removeTimeApproximations` strips the
    approximation words that a relative-time formatter puts before or after the amount,
    then trims. */
module Utils {

  import Text

  /** `s` starts with `w`, ignoring ASCII case, followed by white space: the pattern
      `^w\s+` with the `i` flag. */
  predicate LeadingWord(s: string, w: string)
  {
    |s| > |w| && Text.Lower(s[..|w|]) == w && Text.IsSpace(s[|w|])
  }

  /** `s` ends with `w`, ignoring ASCII case, preceded by white space: the pattern `\s+w$`
      with the `i` flag. */
  predicate TrailingWord(s: string, w: string)
  {
    |s| > |w| && Text.Lower(s[|s| - |w|..]) == w && Text.IsSpace(s[|s| - |w| - 1])
  }

  /** `s.replace(/^w\s+/i, '')`: the word and the whole white-space run after it go, and
      nothing else changes. */
  function StripLeading(s: string, w: string): (r: string)
    ensures IsSuffix(r, s)
    ensures LeadingWord(s, w) ==>
      && |r| < |s|
      && (forall k :: |w| <= k < |s| - |r| ==> Text.IsSpace(s[k]))
      && (r == [] || !Text.IsSpace(r[0]))
    ensures !LeadingWord(s, w) ==> r == s
  {
    if LeadingWord(s, w) then
      LeadingRun(s, |w|);
      Text.TrimStart(s[|w|..])
    else s
  }

  /** Trimming the start of `s[n..]` removes only white space after position `n`. */
  lemma LeadingRun(s: string, n: nat)
    requires n < |s| && Text.IsSpace(s[n])
    ensures var t := Text.TrimStart(s[n..]);
      && IsSuffix(t, s) && |t| < |s|
      && (forall k :: n <= k < |s| - |t| ==> Text.IsSpace(s[k]))
  {
    var t := Text.TrimStart(s[n..]);
    SuffixOfSuffix(s, s[n..], t);
    forall k | n <= k < |s| - |t| ensures Text.IsSpace(s[k]) {
      assert s[k] == s[n..][k - n];
    }
  }

  /** `s.replace(/\s+w$/i, '')`: the leftmost match starts at the beginning of the white
      space run before the word, so the word and that whole run go. */
  function StripTrailing(s: string, w: string): (r: string)
    ensures |r| <= |s| && r == s[..|r|]
    ensures TrailingWord(s, w) ==>
      && |r| < |s| && r == s[..|r|]
      && (forall k :: |r| <= k < |s| - |w| ==> Text.IsSpace(s[k]))
      && (r == [] || !Text.IsSpace(r[|r| - 1]))
    ensures !TrailingWord(s, w) ==> r == s
  {
    if TrailingWord(s, w) then
      var t := Text.TrimEnd(s[..|s| - |w|]);
      PrefixOfPrefix(s, s[..|s| - |w|], t);
      t
    else s
  }

  /** `r` is a suffix of `s`. */
  predicate IsSuffix<T(==)>(r: seq<T>, s: seq<T>)
  {
    |r| <= |s| && r == s[|s| - |r|..]
  }

  lemma SuffixOfSuffix<T>(s: seq<T>, t: seq<T>, r: seq<T>)
    requires IsSuffix(t, s) && IsSuffix(r, t)
    ensures IsSuffix(r, s)
  {
    assert forall k :: 0 <= k < |r| ==> r[k] == t[|t| - |r| + k] == s[|s| - |r| + k];
  }

  lemma PrefixOfPrefix<T>(s: seq<T>, t: seq<T>, r: seq<T>)
    requires |t| <= |s| && t == s[..|t|]
    requires |r| <= |t| && r == t[..|r|]
    ensures r == s[..|r|]
  {
  }

  /** The words tried at the start, in the order they are tried, each once. */
  const LeadingWords: seq<string> := ["almost", "about", "over", "around", "approximately", "nearly"]

  /** The words tried at the end, in the order they are tried, each once. */
  const TrailingWords: seq<string> := ["almost", "about", "over"]

  function StripAllLeading(s: string, words: seq<string>): (r: string)
    ensures IsSuffix(r, s)
  {
    if words == [] then s
    else
      var t := StripLeading(s, words[0]);
      var r := StripAllLeading(t, words[1..]);
      SuffixOfSuffix(s, t, r);
      r
  }

  function StripAllTrailing(s: string, words: seq<string>): (r: string)
    ensures |r| <= |s| && r == s[..|r|]
  {
    if words == [] then s
    else
      var t := StripTrailing(s, words[0]);
      var r := StripAllTrailing(t, words[1..]);
      PrefixOfPrefix(s, t, r);
      r
  }

  /** The replace chain with the given words, then `trim()`. */
  function Clean(s: string, leading: seq<string>, trailing: seq<string>): (r: string)
    ensures r == [] || (!Text.IsSpace(r[0]) && !Text.IsSpace(r[|r| - 1]))
  {
    var t := Text.TrimStart(StripAllTrailing(StripAllLeading(s, leading), trailing));
    assert Text.Trim(StripAllTrailing(StripAllLeading(s, leading), trailing)) == Text.TrimEnd(t);
    Text.TrimEnd(t)
  }

  /** `removeTimeApproximations(timeString)`. */
  function RemoveTimeApproximations(timeString: string): string
  {
    Clean(timeString, LeadingWords, TrailingWords)
  }

  /** Only a prefix and a suffix are removed, whatever the words. */
  lemma CleanIsSlice(s: string, leading: seq<string>, trailing: seq<string>) returns (i: nat, j: nat)
    ensures i <= j <= |s|
    ensures Clean(s, leading, trailing) == s[i..j]
  {
    var a := StripAllLeading(s, leading);
    var b := StripAllTrailing(a, trailing);
    var t := Text.TrimStart(b);
    var u := Text.TrimEnd(t);
    assert Clean(s, leading, trailing) == u;
    assert IsSuffix(t, b);
    assert u <= t;
    i, j := NestedSlice(s, a, b, t, u);
  }

  /** A prefix of a suffix of a prefix of a suffix of `x` is a slice of `x`. */
  lemma NestedSlice<T>(x: seq<T>, a: seq<T>, b: seq<T>, t: seq<T>, u: seq<T>) returns (i: nat, j: nat)
    requires IsSuffix(a, x) && b <= a && IsSuffix(t, b) && u <= t
    ensures i <= j <= |x| && u == x[i..j]
  {
    i := |x| - |a| + |b| - |t|;
    j := i + |u|;
    forall k | 0 <= k < |u| ensures u[k] == x[i + k] {
      assert u[k] == t[k] == b[|b| - |t| + k] == a[|b| - |t| + k];
    }
  }

  /** The result is a piece of the input (only a prefix and a suffix are removed) and has
      no white space at either end. */
  lemma RemoveIsSlice(timeString: string) returns (i: nat, j: nat)
    ensures i <= j <= |timeString|
    ensures RemoveTimeApproximations(timeString) == timeString[i..j]
    ensures var r := RemoveTimeApproximations(timeString);
      r == [] || (!Text.IsSpace(r[0]) && !Text.IsSpace(r[|r| - 1]))
  {
    i, j := CleanIsSlice(timeString, LeadingWords, TrailingWords);
  }

  /** A string none of whose tried words stands at its start or end is only trimmed. */
  lemma {:induction false} NoApproximationOnlyTrimmed(timeString: string)
    requires forall k :: 0 <= k < |LeadingWords| ==> !LeadingWord(timeString, LeadingWords[k])
    requires forall k :: 0 <= k < |TrailingWords| ==> !TrailingWord(timeString, TrailingWords[k])
    ensures RemoveTimeApproximations(timeString) == Text.Trim(timeString)
  {
    NoneLeading(timeString, LeadingWords);
    NoneTrailing(timeString, TrailingWords);
  }

  lemma {:induction false} NoneLeading(s: string, words: seq<string>)
    requires forall k :: 0 <= k < |words| ==> !LeadingWord(s, words[k])
    ensures StripAllLeading(s, words) == s
  {
    if words != [] {
      assert !LeadingWord(s, words[0]);
      NoneLeading(s, words[1..]);
    }
  }

  lemma {:induction false} NoneTrailing(s: string, words: seq<string>)
    requires forall k :: 0 <= k < |words| ==> !TrailingWord(s, words[k])
    ensures StripAllTrailing(s, words) == s
  {
    if words != [] {
      assert !TrailingWord(s, words[0]);
      NoneTrailing(s, words[1..]);
    }
  }
}
