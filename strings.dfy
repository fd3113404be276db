/** Hand-written replacements for the few string tests the source does with
    `startsWith`, anchored regular expressions and substring search. */
module Strings {

  /** `s.startsWith(prefix)`, or a regex anchored with `^`. */
  predicate StartsWith(s: string, prefix: string) {
    |prefix| <= |s| && s[..|prefix|] == prefix
  }

  /** A regex anchored with `$`: `suffix` ends `s`. */
  predicate EndsWith(s: string, suffix: string) {
    |suffix| <= |s| && s[|s| - |suffix|..] == suffix
  }

  /** An unanchored regex without metacharacters (`/wp-content/.test(s)`):
      `part` occurs somewhere in `s`. */
  predicate Contains(s: string, part: string) {
    exists i :: 0 <= i <= |s| && OccursAt(s, part, i)
  }

  /** `part` occurs in `s` starting at index `i`. */
  predicate OccursAt(s: string, part: string, i: int) {
    0 <= i <= |s| - |part| && s[i..i + |part|] == part
  }

  /** The index of the first `c` in `s`, or `|s|` when there is none. */
  function IndexOfChar(s: string, c: char): (r: nat)
    ensures r <= |s|
    ensures c !in s[..r]
    ensures r < |s| ==> s[r] == c
  {
    if s == [] then 0
    else if s[0] == c then 0
    else 1 + IndexOfChar(s[1..], c)
  }

  /** The first `c` is found where it first occurs. */
  lemma {:induction false} IndexOfCharAt(s: string, c: char, k: nat)
    requires k < |s| && s[k] == c && c !in s[..k]
    ensures IndexOfChar(s, c) == k
  {
    if k > 0 {
      assert s[0] == s[..k][0];
      assert s[1..][..k - 1] == s[..k][1..];
      IndexOfCharAt(s[1..], c, k - 1);
    }
  }

  /** Every tail of a string ends it, and ending is transitive. */
  lemma EndsWithTail(s: string, i: nat, t: string)
    requires i <= |s| && EndsWith(s[i..], t)
    ensures EndsWith(s, t)
  {
    assert s[|s| - |t|..] == s[i..][|s| - i - |t|..];
  }

  /** A character no string that lacks it can contain a substring with. */
  lemma NotContainsWithoutChar(s: string, part: string, c: char)
    requires c in part && c !in s
    ensures !Contains(s, part)
  {
    var k :| 0 <= k < |part| && part[k] == c;
    forall i | 0 <= i <= |s| - |part|
      ensures !OccursAt(s, part, i)
    {
      assert s[i + k] != c;
    }
  }
}
