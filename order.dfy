/**
 * Python's ordering of `str` values (code point by code point, a proper
 * prefix first), sortedness, and `sorted(set(xs))` for a list of strings.
 */
module Order {

  /** `a <= b` on Python strings. */
  predicate LexLe(a: string, b: string)
    decreases |a|
  {
    a == [] || (b != [] && (a[0] < b[0] || (a[0] == b[0] && LexLe(a[1..], b[1..]))))
  }

  /** `a < b` on Python strings. */
  predicate LexLt(a: string, b: string) {
    LexLe(a, b) && a != b
  }

  /** `a` is a prefix of `b`. */
  ghost predicate IsPrefix(a: string, b: string) {
    |a| <= |b| && a == b[..|a|]
  }

  /** At some index before which `a` and `b` agree, `a` has the smaller code point. */
  ghost predicate SmallerAt(a: string, b: string) {
    exists i :: 0 <= i < |a| && i < |b| && a[..i] == b[..i] && a[i] < b[i]
  }

  /** `a` is a prefix of `b`, or at the first index where they differ `a` has the smaller code point. */
  ghost predicate PrefixOrSmaller(a: string, b: string) {
    IsPrefix(a, b) || SmallerAt(a, b)
  }

  lemma PrefixTail(a: string, b: string)
    requires a != [] && b != [] && a[0] == b[0]
    ensures IsPrefix(a, b) <==> IsPrefix(a[1..], b[1..])
  {
    if IsPrefix(a, b) {
      assert a[1..] == b[1..][..|a| - 1];
    }
    if IsPrefix(a[1..], b[1..]) {
      assert a == [a[0]] + a[1..];
      assert b[..|a|] == [b[0]] + b[1..][..|a| - 1];
    }
  }

  lemma SmallerAtTail(a: string, b: string)
    requires a != [] && b != [] && a[0] == b[0] && SmallerAt(a, b)
    ensures SmallerAt(a[1..], b[1..])
  {
    var i :| 0 <= i < |a| && i < |b| && a[..i] == b[..i] && a[i] < b[i];
    assert i > 0;
    assert a[1..][..i - 1] == a[..i][1..];
    assert b[1..][..i - 1] == b[..i][1..];
    assert a[1..][i - 1] < b[1..][i - 1];
  }

  lemma SmallerAtCons(a: string, b: string)
    requires a != [] && b != [] && a[0] == b[0] && SmallerAt(a[1..], b[1..])
    ensures SmallerAt(a, b)
  {
    var i :| 0 <= i < |a| - 1 && i < |b| - 1 && a[1..][..i] == b[1..][..i] && a[1..][i] < b[1..][i];
    assert a[..i + 1] == [a[0]] + a[1..][..i];
    assert b[..i + 1] == [b[0]] + b[1..][..i];
    assert a[i + 1] < b[i + 1];
  }

  /**
   * `LexLe` is the comparison Python documents: `a` is a prefix of `b`, or at
   * the first index where they differ `a` has the smaller code point.
   */
  lemma {:induction false} LexLeMeaning(a: string, b: string)
    ensures LexLe(a, b) <==> PrefixOrSmaller(a, b)
    decreases |a|
  {
    if a != [] && b != [] {
      if a[0] == b[0] {
        LexLeMeaning(a[1..], b[1..]);
        PrefixTail(a, b);
        if SmallerAt(a, b) {
          SmallerAtTail(a, b);
        }
        if SmallerAt(a[1..], b[1..]) {
          SmallerAtCons(a, b);
        }
      } else if a[0] < b[0] {
        assert a[..0] == b[..0];
      } else {
        if |a| <= |b| {
          assert a != b[..|a|] by { assert b[..|a|][0] == b[0]; }
        }
        forall i | 0 <= i < |a| && i < |b| && a[..i] == b[..i] ensures a[i] >= b[i] {
        }
      }
    }
  }

  lemma {:induction false} LexLeReflexive(a: string)
    ensures LexLe(a, a)
    decreases |a|
  {
    if a != [] {
      LexLeReflexive(a[1..]);
    }
  }

  lemma {:induction false} LexLeTotal(a: string, b: string)
    ensures LexLe(a, b) || LexLe(b, a)
    decreases |a|
  {
    if a != [] && b != [] && a[0] == b[0] {
      LexLeTotal(a[1..], b[1..]);
    }
  }

  lemma {:induction false} LexLeTransitive(a: string, b: string, c: string)
    requires LexLe(a, b) && LexLe(b, c)
    ensures LexLe(a, c)
    decreases |a|
  {
    if a != [] && a[0] == b[0] && b[0] == c[0] {
      LexLeTransitive(a[1..], b[1..], c[1..]);
    }
  }

  lemma {:induction false} LexLeAntisymmetric(a: string, b: string)
    requires LexLe(a, b) && LexLe(b, a)
    ensures a == b
    decreases |a|
  {
    if a != [] {
      LexLeAntisymmetric(a[1..], b[1..]);
      assert a == [a[0]] + a[1..] && b == [b[0]] + b[1..];
    }
  }

  /** Each element is below the next, so no element appears twice. */
  predicate StrictlySorted(s: seq<string>) {
    forall i :: 0 < i < |s| ==> LexLt(s[i - 1], s[i])
  }

  /** In a strictly sorted list every element is below every later one. */
  lemma {:induction false} StrictlySortedPairwise(s: seq<string>)
    requires StrictlySorted(s)
    ensures forall i, j :: 0 <= i < j < |s| ==> LexLt(s[i], s[j])
    decreases |s|
  {
    if |s| > 1 {
      StrictlySortedPairwise(s[1..]);
      forall i, j | 0 <= i < j < |s| ensures LexLt(s[i], s[j]) {
        if i == 0 && j > 1 {
          assert LexLt(s[0], s[1]) && LexLt(s[1], s[j]) by { assert s[1..][0] == s[1] && s[1..][j - 1] == s[j]; }
          LexLeTransitive(s[0], s[1], s[j]);
          if s[0] == s[j] {
            LexLeAntisymmetric(s[0], s[1]);
          }
        } else if i > 0 {
          assert s[1..][i - 1] == s[i] && s[1..][j - 1] == s[j];
        }
      }
    }
  }

  /** Inserts `x` into a strictly sorted list unless it is already there. */
  function InsertUnique(x: string, s: seq<string>): (r: seq<string>)
    requires StrictlySorted(s)
    ensures StrictlySorted(r)
    ensures forall y :: y in r <==> y == x || y in s
    ensures |r| > 0 && (r[0] == x || (s != [] && r[0] == s[0]))
    decreases |s|
  {
    if s == [] then [x]
    else if x == s[0] then s
    else if LexLe(x, s[0]) then [x] + s
    else
      LexLeTotal(x, s[0]);
      var rest := InsertUnique(x, s[1..]);
      assert rest[0] == x || rest[0] == s[1];
      [s[0]] + rest
  }

  /** Python's `sorted(set(xs))`. */
  function SortedSet(xs: seq<string>): (r: seq<string>)
    ensures StrictlySorted(r)
    ensures forall y :: y in r <==> y in xs
    decreases |xs|
  {
    if xs == [] then [] else InsertUnique(xs[0], SortedSet(xs[1..]))
  }

  /** Two strictly sorted lists holding the same strings are equal. */
  lemma {:induction false} StrictlySortedUnique(a: seq<string>, b: seq<string>)
    requires StrictlySorted(a) && StrictlySorted(b)
    requires forall y :: y in a <==> y in b
    ensures a == b
    decreases |a|
  {
    if a != [] || b != [] {
      assert a != [] ==> a[0] in a;
      assert b != [] ==> b[0] in b;
      assert a != [] && b != [];
      assert a[0] in b && b[0] in a;
      StrictlySortedPairwise(a);
      StrictlySortedPairwise(b);
      LexLeReflexive(a[0]);
      assert LexLe(a[0], b[0]) by {
        if a[0] != b[0] {
          var i :| 0 <= i < |a| && a[i] == b[0];
          assert i > 0 && LexLt(a[0], a[i]);
        }
      }
      assert LexLe(b[0], a[0]) by {
        if a[0] != b[0] {
          var i :| 0 <= i < |b| && b[i] == a[0];
          assert i > 0 && LexLt(b[0], b[i]);
        }
      }
      LexLeAntisymmetric(a[0], b[0]);
      forall y ensures y in a[1..] <==> y in b[1..] {
        if y in a[1..] {
          var i :| 0 <= i < |a| - 1 && a[1..][i] == y;
          assert LexLt(a[0], a[i + 1]);
          assert a[i + 1] == y && y in a;
          var j :| 0 <= j < |b| && b[j] == y;
          assert j != 0 && b[1..][j - 1] == y;
        }
        if y in b[1..] {
          var i :| 0 <= i < |b| - 1 && b[1..][i] == y;
          assert LexLt(b[0], b[i + 1]);
          assert b[i + 1] == y && y in b;
          var j :| 0 <= j < |a| && a[j] == y;
          assert j != 0 && a[1..][j - 1] == y;
        }
      }
      StrictlySortedUnique(a[1..], b[1..]);
      assert a == [a[0]] + a[1..] && b == [b[0]] + b[1..];
    }
  }

  /** `sorted(set(v))` returns a list that is already sorted and duplicate-free unchanged. */
  lemma SortedSetOfStrictlySorted(v: seq<string>)
    requires StrictlySorted(v)
    ensures SortedSet(v) == v
  {
    StrictlySortedUnique(SortedSet(v), v);
  }
}
