/**
 * The operations on Python `str` values that the snapshot generator uses,
 * on `string` (a `seq<char>` of Unicode scalar values).
 */
module Text {

  /** `s.endswith(suffix)` */
  predicate EndsWith(s: string, suffix: string) {
    |suffix| <= |s| && s[|s| - |suffix|..] == suffix
  }

  /** `key` occurs in `s` at index `k`. */
  predicate OccursAt(s: string, key: string, k: nat) {
    k + |key| <= |s| && s[k..k + |key|] == key
  }

  /** A string occurs in a concatenation right after the part before it. */
  lemma OccursAfter(a: string, b: string)
    ensures OccursAt(a + b, b, |a|)
  {
    assert (a + b)[|a|..|a| + |b|] == b;
  }

  /** Python's `key in s`: `key` occurs somewhere in `s`. */
  predicate Contains(s: string, key: string) {
    exists k: nat | k <= |s| :: OccursAt(s, key, k)
  }

  /** The ASCII letters `A`-`Z` mapped to lower case; every other character unchanged. */
  function LowerChar(c: char): char {
    if 'A' <= c <= 'Z' then (c as int + 32) as char else c
  }

  /** `s.lower()`, for the ASCII letters. */
  function Lower(s: string): string {
    seq(|s|, i requires 0 <= i < |s| => LowerChar(s[i]))
  }

  /** `s.lower().endswith(suffix)`, stated on the characters of the tail of `s`. */
  predicate EndsWithLower(s: string, suffix: string) {
    |suffix| <= |s| && forall k :: 0 <= k < |suffix| ==> LowerChar(s[|s| - |suffix| + k]) == suffix[k]
  }

  lemma EndsWithLowerMeaning(s: string, suffix: string)
    ensures EndsWithLower(s, suffix) <==> EndsWith(Lower(s), suffix)
  {
    if EndsWithLower(s, suffix) {
      EndsWithLowerTail(s, suffix);
    }
    if EndsWith(Lower(s), suffix) {
      forall k | 0 <= k < |suffix| ensures LowerChar(s[|s| - |suffix| + k]) == suffix[k] {
        assert Lower(s)[|s| - |suffix|..][k] == suffix[k];
      }
    }
  }

  lemma EndsWithLowerTail(s: string, suffix: string)
    requires EndsWithLower(s, suffix)
    ensures Lower(s)[|s| - |suffix|..] == suffix
  {
    var t := Lower(s)[|s| - |suffix|..];
    assert |t| == |suffix|;
    forall k | 0 <= k < |suffix| ensures t[k] == suffix[k] {
      assert t[k] == Lower(s)[|s| - |suffix| + k];
    }
  }

  lemma OccursAtIndex(s: string, key: string, k: nat, m: nat)
    requires OccursAt(s, key, k) && m < |key|
    ensures s[k + m] == key[m]
  {
    assert s[k..k + |key|][m] == s[k + m];
  }

  /** A key without `/` that occurs in `a/b` occurs in `a` or in `b`. */
  lemma OccursAcrossSlash(a: string, b: string, key: string, k: nat)
    requires '/' !in key && OccursAt(a + "/" + b, key, k)
    ensures (k + |key| <= |a| && OccursAt(a, key, k)) || (k > |a| && OccursAt(b, key, k - |a| - 1))
  {
    var s := a + "/" + b;
    if k <= |a| < k + |key| {
      assert s[|a|] == '/';
      OccursAtIndex(s, key, k, |a| - k);
    } else if k + |key| <= |a| {
      assert s[k..k + |key|] == a[k..k + |key|];
    } else {
      assert s[k..k + |key|] == b[k - |a| - 1..k - |a| - 1 + |key|];
    }
  }

  /** A key does not occur in `s` when one of its characters does not. */
  lemma NotContainsByChar(s: string, key: string, c: char)
    requires c in key && c !in s
    ensures !Contains(s, key)
  {
  }
}
