/**
 * The include extractor: the pattern `!\s*include[^\s]*\s+([^\s#]+)` (matched
 * without regard to case), found left to right without overlap as
 * `re.finditer` does, and `yaml_includes`, which keeps the sorted distinct
 * captures of a YAML file.
 *
 * The pattern never needs to backtrack: `\s*` must stop where `include`
 * starts, `[^\s]*` must stop where `\s+` starts, and `\s+` must stop where the
 * capture starts. So a match at a given `!` is unique and is found by taking
 * each run as long as it goes; `MatchAt` does exactly that, and
 * `MatchAtSound`/`MatchAtComplete` tie it to the declarative `IsMatch`.
 */
module Includes {
  import opened Wrappers
  import opened Text
  import opened Order
  import opened Tree

  /** Python's `\s` on `str` patterns: the characters for which `str.isspace()` holds. */
  predicate IsWhitespace(c: char) {
    var n := c as int;
    (0x09 <= n <= 0x0D) || (0x1C <= n <= 0x20) || n == 0x85 || n == 0xA0 || n == 0x1680 ||
    (0x2000 <= n <= 0x200A) || n == 0x2028 || n == 0x2029 || n == 0x202F || n == 0x205F || n == 0x3000
  }

  /** `[^\s#]`: a character the captured target may hold. */
  predicate IsTargetChar(c: char) {
    !IsWhitespace(c) && c != '#'
  }

  /** The three character classes the pattern repeats: `\s`, `[^\s]` and `[^\s#]`. */
  datatype CharClass = Space | NonSpace | Target

  predicate InClass(c: char, cls: CharClass) {
    match cls
    case Space => IsWhitespace(c)
    case NonSpace => !IsWhitespace(c)
    case Target => IsTargetChar(c)
  }

  /** Every character of `t[j..k]` is in `cls`. */
  predicate AllIn(t: string, j: nat, k: nat, cls: CharClass)
    requires j <= k <= |t|
  {
    forall m :: j <= m < k ==> InClass(t[m], cls)
  }

  /** Where a greedy repetition of `cls` that starts at `j` stops: the end of the longest run. */
  function RunEnd(t: string, j: nat, cls: CharClass): (k: nat)
    requires j <= |t|
    ensures j <= k <= |t|
    ensures k == |t| || !InClass(t[k], cls)
    decreases |t| - j
  {
    if j < |t| && InClass(t[j], cls) then RunEnd(t, j + 1, cls) else j
  }

  /** Every character the repetition passes over is in the class. */
  lemma {:induction false} RunEndRun(t: string, j: nat, cls: CharClass)
    requires j <= |t|
    ensures AllIn(t, j, RunEnd(t, j, cls), cls)
    decreases |t| - j
  {
    if j < |t| && InClass(t[j], cls) {
      RunEndRun(t, j + 1, cls);
    }
  }

  /** A run that cannot be extended is the one `RunEnd` finds. */
  lemma RunEndUnique(t: string, j: nat, k: nat, cls: CharClass)
    requires j <= k <= |t| && AllIn(t, j, k, cls)
    requires k == |t| || !InClass(t[k], cls)
    ensures RunEnd(t, j, cls) == k
  {
    RunEndRun(t, j, cls);
  }

  /** Every run of `cls` from `j` ends at or before `RunEnd`. */
  lemma RunEndLongest(t: string, j: nat, k: nat, cls: CharClass)
    requires j <= k <= |t| && AllIn(t, j, k, cls)
    ensures k <= RunEnd(t, j, cls)
  {
    RunEndRun(t, j, cls);
  }

  /** `include` at `j`, each letter in either case. */
  predicate IncludeWordAt(t: string, j: nat) {
    j + 7 <= |t| && forall m :: 0 <= m < 7 ==> LowerChar(t[j + m]) == "include"[m]
  }

  lemma IncludeWordStartsWithLetter(t: string, j: nat)
    requires IncludeWordAt(t, j)
    ensures !IsWhitespace(t[j])
  {
    assert LowerChar(t[j + 0]) == "include"[0];
  }

  /**
   * One match of the pattern: it starts with the `!` at `bang`, and its group 1
   * (the target) is `t[start..end]`, where the whole match also ends.
   */
  datatype Match = Match(bang: nat, start: nat, end: nat)

  /**
   * The pattern matches at `m.bang` with group 1 at `t[m.start..m.end]`, for
   * some way of splitting the text between the parts of the pattern.
   */
  ghost predicate IsMatch(t: string, m: Match) {
    m.bang < m.start < m.end <= |t| && t[m.bang] == '!' &&
    exists a: nat, b: nat ::
      m.bang + 1 <= a && a + 7 <= b < m.start &&
      AllIn(t, m.bang + 1, a, Space) && IncludeWordAt(t, a) &&
      AllIn(t, a + 7, b, NonSpace) && AllIn(t, b, m.start, Space) &&
      AllIn(t, m.start, m.end, Target)
  }

  /** `INCLUDE_RE.match(t, i)`: the match that starts at `i`, taking every repetition as long as it goes. */
  function MatchAt(t: string, i: nat): (r: Option<Match>)
    requires i <= |t|
    ensures r.Some? ==> r.value.bang == i < r.value.start < r.value.end <= |t|
  {
    if i < |t| && t[i] == '!' then
      var a := RunEnd(t, i + 1, Space);
      if IncludeWordAt(t, a) then
        var b := RunEnd(t, a + 7, NonSpace);
        if b < |t| then
          var c := RunEnd(t, b, Space);
          var e := RunEnd(t, c, Target);
          if c < e then Some(Match(i, c, e)) else None
        else None
      else None
    else None
  }

  /** What `MatchAt` finds is a match, and its target cannot be made longer. */
  lemma MatchAtSound(t: string, i: nat)
    requires i <= |t| && MatchAt(t, i).Some?
    ensures IsMatch(t, MatchAt(t, i).value)
    ensures MatchAt(t, i).value.end == |t| || !IsTargetChar(t[MatchAt(t, i).value.end])
  {
    var a := RunEnd(t, i + 1, Space);
    var b := RunEnd(t, a + 7, NonSpace);
    var m := MatchAt(t, i).value;
    RunEndRun(t, i + 1, Space);
    RunEndRun(t, a + 7, NonSpace);
    RunEndRun(t, b, Space);
    RunEndRun(t, m.start, Target);
    assert m.bang + 1 <= a && a + 7 <= b < m.start;
  }

  /**
   * Every match at `m.bang` has the target start `MatchAt` reports, and no
   * longer a target: the match at a `!` is unique up to the greedy end.
   */
  lemma MatchAtComplete(t: string, m: Match)
    requires IsMatch(t, m)
    ensures MatchAt(t, m.bang).Some?
    ensures MatchAt(t, m.bang).value.start == m.start && m.end <= MatchAt(t, m.bang).value.end
  {
    var a := MatchRuns(t, m);
  }

  /** The runs of any match are the longest ones, so they are the ones `MatchAt` takes. */
  lemma MatchRuns(t: string, m: Match) returns (a: nat)
    requires IsMatch(t, m)
    ensures m.bang + 1 <= |t| && a == RunEnd(t, m.bang + 1, Space) && IncludeWordAt(t, a)
    ensures RunEnd(t, a + 7, NonSpace) < |t|
    ensures RunEnd(t, RunEnd(t, a + 7, NonSpace), Space) == m.start
    ensures m.end <= RunEnd(t, m.start, Target)
  {
    var b: nat;
    a, b :|
      m.bang + 1 <= a && a + 7 <= b < m.start &&
      AllIn(t, m.bang + 1, a, Space) && IncludeWordAt(t, a) &&
      AllIn(t, a + 7, b, NonSpace) && AllIn(t, b, m.start, Space) &&
      AllIn(t, m.start, m.end, Target);
    IncludeWordStartsWithLetter(t, a);
    RunEndUnique(t, m.bang + 1, a, Space);
    assert IsWhitespace(t[b]);
    RunEndUnique(t, a + 7, b, NonSpace);
    assert !IsWhitespace(t[m.start]);
    RunEndUnique(t, b, m.start, Space);
    RunEndLongest(t, m.start, m.end, Target);
  }

  /** `t[m.start..m.end]`: `m.group(1)`. */
  function Capture(t: string, m: Match): string
    requires m.start <= m.end <= |t|
  {
    t[m.start..m.end]
  }

  /** The matches in `ms` lie inside `t`, in order and without overlap. */
  predicate Ordered(t: string, ms: seq<Match>) {
    (forall k :: 0 <= k < |ms| ==> ms[k].bang < ms[k].start < ms[k].end <= |t|) &&
    (forall k :: 0 < k < |ms| ==> ms[k - 1].end <= ms[k].bang)
  }

  /**
   * `INCLUDE_RE.finditer(t)` from position `i` on: try each position in turn,
   * and after a match carry on where it ended.
   */
  function Scan(t: string, i: nat): seq<Match>
    requires i <= |t|
    decreases |t| - i
  {
    if i == |t| then []
    else match MatchAt(t, i)
      case Some(m) => [m] + Scan(t, m.end)
      case None => Scan(t, i + 1)
  }

  /** The matches `Scan` reports from `i` lie at or after `i`, in order and without overlap. */
  lemma {:induction false} ScanOrdered(t: string, i: nat)
    requires i <= |t|
    ensures Ordered(t, Scan(t, i))
    ensures forall k :: 0 <= k < |Scan(t, i)| ==> i <= Scan(t, i)[k].bang
    decreases |t| - i
  {
    if i < |t| {
      match MatchAt(t, i)
      case Some(m) =>
        ScanOrdered(t, m.end);
        var rest := Scan(t, m.end);
        assert forall k :: 0 < k < |rest| + 1 ==> ([m] + rest)[k] == rest[k - 1];
      case None =>
        ScanOrdered(t, i + 1);
    }
  }

  /** Each match `Scan` reports is the one `MatchAt` finds at its `!`. */
  lemma {:induction false} ScanFound(t: string, i: nat, k: nat)
    requires i <= |t| && k < |Scan(t, i)|
    ensures Scan(t, i)[k].bang <= |t| && MatchAt(t, Scan(t, i)[k].bang) == Some(Scan(t, i)[k])
    decreases |t| - i
  {
    if i < |t| {
      match MatchAt(t, i)
      case Some(m) =>
        if k > 0 {
          ScanFound(t, m.end, k - 1);
        }
      case None =>
        ScanFound(t, i + 1, k);
    }
  }

  /** A position where a match starts is reported by `Scan` or lies inside a match it reports. */
  lemma {:induction false} ScanCovers(t: string, i: nat, p: nat)
    requires i <= p < |t| && MatchAt(t, p).Some?
    ensures exists k :: 0 <= k < |Scan(t, i)| && Scan(t, i)[k].bang <= p < Scan(t, i)[k].end
    decreases |t| - i
  {
    var r := Scan(t, i);
    ScanOrdered(t, i);
    match MatchAt(t, i)
    case Some(m) =>
      if p < m.end {
        assert r[0] == m;
      } else {
        ScanCovers(t, m.end, p);
        var k :| 0 <= k < |Scan(t, m.end)| && Scan(t, m.end)[k].bang <= p < Scan(t, m.end)[k].end;
        assert r[k + 1] == Scan(t, m.end)[k];
      }
    case None =>
      ScanCovers(t, i + 1, p);
  }

  /**
   * The matches `Scan` returns are exactly the ones `finditer` reports: each
   * is a match, they do not overlap, and a position is skipped only when no
   * match starts there or it lies inside the previous match.
   */
  lemma ScanMatches(t: string, i: nat, k: nat)
    requires i <= |t| && k < |Scan(t, i)|
    ensures IsMatch(t, Scan(t, i)[k])
    ensures k > 0 ==> forall p :: Scan(t, i)[k - 1].end <= p < Scan(t, i)[k].bang ==> MatchAt(t, p).None?
    ensures k == 0 ==> forall p :: i <= p < Scan(t, i)[0].bang ==> MatchAt(t, p).None?
  {
    var r := Scan(t, i);
    ScanOrdered(t, i);
    ScanFound(t, i, k);
    MatchAtSound(t, r[k].bang);
    forall p | (if k > 0 then r[k - 1].end else i) <= p < r[k].bang ensures MatchAt(t, p).None? {
      if MatchAt(t, p).Some? {
        ScanCovers(t, i, p);
        var j :| 0 <= j < |r| && r[j].bang <= p < r[j].end;
        if j < k {
          OrderedMonotone(t, r, j, k - 1);
        } else if j > k {
          OrderedMonotone(t, r, k, j - 1);
        }
      }
    }
  }

  lemma {:induction false} OrderedMonotone(t: string, ms: seq<Match>, j: nat, k: nat)
    requires Ordered(t, ms) && j <= k < |ms|
    ensures ms[j].end <= ms[k].end
    ensures k + 1 < |ms| ==> ms[j].end <= ms[k + 1].bang
    decreases k - j
  {
    if j < k {
      OrderedMonotone(t, ms, j, k - 1);
    }
  }

  /** Positions without a `!` are skipped one by one. */
  lemma {:induction false} ScanSkips(t: string, i: nat, j: nat)
    requires i <= j <= |t|
    requires forall p :: i <= p < j ==> t[p] != '!'
    ensures Scan(t, i) == Scan(t, j)
    decreases j - i
  {
    if i < j {
      ScanSkips(t, i, j - 1);
      ScanNoBang(t, j - 1);
    }
  }

  /** No match starts at a position without a `!`, so the scan moves on by one. */
  lemma ScanNoBang(t: string, i: nat)
    requires i < |t| && t[i] != '!'
    ensures Scan(t, i) == Scan(t, i + 1)
  {
    assert MatchAt(t, i) == None;
  }

  /** A target is non-empty and holds no whitespace and no `#`. */
  lemma CaptureIsTarget(t: string, m: Match)
    requires m.bang <= |t| && MatchAt(t, m.bang) == Some(m)
    ensures Capture(t, m) != [] && forall c :: c in Capture(t, m) ==> IsTargetChar(c)
  {
    var c0 := RunEnd(t, RunEnd(t, RunEnd(t, m.bang + 1, Space) + 7, NonSpace), Space);
    assert c0 == m.start;
    RunEndRun(t, m.start, Target);
    forall c | c in Capture(t, m) ensures IsTargetChar(c) {
      var x :| 0 <= x < |Capture(t, m)| && Capture(t, m)[x] == c;
      assert c == t[m.start + x];
    }
  }

  /** The targets of the given matches, in order. */
  function Captures(t: string, ms: seq<Match>): (r: seq<string>)
    requires Ordered(t, ms)
  {
    seq(|ms|, k requires 0 <= k < |ms| => Capture(t, ms[k]))
  }

  /** `m.group(1) for m in INCLUDE_RE.finditer(text)` */
  function Targets(text: string): (r: seq<string>)
    ensures forall x :: x in r ==> x != [] && forall c :: c in x ==> IsTargetChar(c)
  {
    var ms := Scan(text, 0);
    ScanOrdered(text, 0);
    var r := Captures(text, ms);
    forall x | x in r ensures x != [] && forall c :: c in x ==> IsTargetChar(c) {
      var k :| 0 <= k < |r| && r[k] == x;
      ScanFound(text, 0, k);
      CaptureIsTarget(text, ms[k]);
    }
    r
  }

  /** `sorted(set(...))` of the targets in `text`. */
  function IncludesIn(text: string): (r: seq<string>)
    ensures StrictlySorted(r)
    ensures forall x :: x in r <==> x in Targets(text)
  {
    SortedSet(Targets(text))
  }

  /**
   * `yaml_includes(path)`: nothing unless the lower-cased suffix of the name
   * ends in `yaml` and the file can be read; otherwise the distinct targets,
   * sorted.
   */
  function YamlIncludes(root: seq<Node>, p: Path): (r: seq<string>)
    ensures StrictlySorted(r)
  {
    if !EndsWithLower(Suffix(Name(p)), "yaml") then []
    else match ReadText(root, p)
      case None => []
      case Some(text) => IncludesIn(text)
  }

  /**
   * Nothing comes from a file whose suffix does not end in `yaml` (in any case)
   * or that cannot be read; otherwise exactly the targets of its text, each a
   * non-empty run of characters that are neither blank nor `#`.
   */
  lemma YamlIncludesMeaning(root: seq<Node>, p: Path)
    ensures !EndsWith(Lower(Suffix(Name(p))), "yaml") ==> YamlIncludes(root, p) == []
    ensures ReadText(root, p).None? ==> YamlIncludes(root, p) == []
    ensures EndsWith(Lower(Suffix(Name(p))), "yaml") && ReadText(root, p).Some? ==>
      forall x :: x in YamlIncludes(root, p) <==> x in Targets(ReadText(root, p).value)
    ensures forall x :: x in YamlIncludes(root, p) ==> x != [] && forall c :: c in x ==> IsTargetChar(c)
  {
    EndsWithLowerMeaning(Suffix(Name(p)), "yaml");
  }

  /** A match whose target cannot be extended is exactly the one `MatchAt` finds at its `!`. */
  lemma MatchAtExact(t: string, m: Match)
    requires IsMatch(t, m) && (m.end == |t| || !IsTargetChar(t[m.end]))
    ensures MatchAt(t, m.bang) == Some(m)
  {
    MatchAtComplete(t, m);
    RunEndUnique(t, m.start, m.end, Target);
  }

  /** `!include ` at `i`, then a target of `n` characters that ends where the text or the run of target characters ends. */
  lemma IncludeDirectiveAt(t: string, i: nat, n: nat)
    requires i + 9 + n <= |t| && 0 < n
    requires forall k :: 0 <= k < 9 ==> t[i + k] == "!include "[k]
    requires forall k :: i + 9 <= k < i + 9 + n ==> IsTargetChar(t[k])
    requires i + 9 + n == |t| || !IsTargetChar(t[i + 9 + n])
    ensures MatchAt(t, i) == Some(Match(i, i + 9, i + 9 + n))
  {
    assert IncludeWordAt(t, i + 1) by {
      forall m | 0 <= m < 7 ensures LowerChar(t[i + 1 + m]) == "include"[m] {
        assert t[i + (m + 1)] == "!include "[m + 1];
      }
    }
    assert t[i + 0] == "!include "[0] && t[i + 8] == "!include "[8];
    assert IsMatch(t, Match(i, i + 9, i + 9 + n)) by {
      assert AllIn(t, i + 1, i + 1, Space) && AllIn(t, i + 8, i + 8, NonSpace) && AllIn(t, i + 8, i + 9, Space);
      assert AllIn(t, i + 9, i + 9 + n, Target);
    }
    MatchAtExact(t, Match(i, i + 9, i + 9 + n));
  }

  lemma DirectiveChars(pre: string, target: string, t: string)
    requires t == pre + "!include " + target
    requires forall c :: c in target ==> IsTargetChar(c)
    ensures |t| == |pre| + 9 + |target|
    ensures forall k :: 0 <= k < |pre| ==> t[k] == pre[k]
    ensures forall k :: 0 <= k < 9 ==> t[|pre| + k] == "!include "[k]
    ensures forall k :: |pre| + 9 <= k < |t| ==> IsTargetChar(t[k])
    ensures t[|pre| + 9..] == target
  {
    forall k | |pre| + 9 <= k < |t| ensures IsTargetChar(t[k]) {
      assert t[k] == target[k - |pre| - 9];
    }
  }

  /** A line `<pre>!include <target>` with no `!` before the directive yields exactly its target. */
  lemma SingleDirective(pre: string, target: string)
    requires '!' !in pre && target != []
    requires forall c :: c in target ==> IsTargetChar(c)
    ensures Targets(pre + "!include " + target) == [target]
  {
    var t := pre + "!include " + target;
    var i := |pre|;
    DirectiveChars(pre, target, t);
    ScanSkips(t, 0, i);
    IncludeDirectiveAt(t, i, |target|);
    assert Scan(t, i) == [Match(i, i + 9, |t|)];
    assert Capture(t, Match(i, i + 9, |t|)) == target;
    assert |Targets(t)| == 1 && Targets(t)[0] == target;
  }

  /** Python's `sorted(set([x]))` is `[x]`. */
  lemma SortedSetSingle(x: string)
    ensures SortedSet([x]) == [x]
  {
    StrictlySortedUnique(SortedSet([x]), [x]);
  }

  // Examples on fixed strings. A lemma that takes its strings as parameters
  // pinned by `requires` lets the solver reason about the parts of a string
  // rather than about each character of one long literal, which keeps these
  // proofs small.

  /** `sensor: !include includes/sensors.yaml` yields exactly `includes/sensors.yaml`. */
  lemma SensorLineTargets(pre: string, target: string)
    requires pre == "sensor: " && target == "includes/sensors.yaml"
    ensures Targets(pre + "!include " + target) == [target]
    ensures IncludesIn(pre + "!include " + target) == [target]
  {
    forall c | c in target ensures IsTargetChar(c) {
    }
    SingleDirective(pre, target);
    SortedSetSingle(target);
  }

  /** The characters of the line `<pre>!include <target>` followed by a newline. */
  lemma LineChars(pre: string, target: string, line: string)
    requires line == pre + "!include " + target + "\n"
    requires forall c :: c in target ==> IsTargetChar(c)
    ensures |line| == |pre| + 10 + |target|
    ensures forall k :: 0 <= k < |pre| ==> line[k] == pre[k]
    ensures forall k :: 0 <= k < 9 ==> line[|pre| + k] == "!include "[k]
    ensures forall k :: |pre| + 9 <= k < |line| - 1 ==> IsTargetChar(line[k])
    ensures line[|line| - 1] == '\n'
    ensures line[|pre| + 9..|line| - 1] == target
  {
    forall k | |pre| + 9 <= k < |line| - 1 ensures IsTargetChar(line[k]) {
      assert line[k] == target[k - |pre| - 9];
    }
  }

  /** The match `MatchAt` finds at `i` is the first one `Scan` reports from `i`. */
  lemma ScanStep(t: string, i: nat, m: Match)
    requires i <= |t| && MatchAt(t, i) == Some(m)
    ensures Scan(t, i) == [m] + Scan(t, m.end)
  {
  }

  /** The directive of a line found at offset `o` of `t` is a match whose target runs to the newline. */
  lemma LineMatch(t: string, o: nat, pre: string, target: string, line: string)
    requires line == pre + "!include " + target + "\n"
    requires target != [] && forall c :: c in target ==> IsTargetChar(c)
    requires o + |line| <= |t| && forall k :: 0 <= k < |line| ==> t[o + k] == line[k]
    ensures MatchAt(t, o + |pre|) == Some(Match(o + |pre|, o + |pre| + 9, o + |line| - 1))
  {
    LineChars(pre, target, line);
    var i := o + |pre|;
    forall k | 0 <= k < 9 ensures t[i + k] == "!include "[k] {
      assert t[o + (|pre| + k)] == line[|pre| + k];
    }
    forall k | i + 9 <= k < i + 9 + |target| ensures IsTargetChar(t[k]) {
      assert t[o + (k - o)] == line[k - o];
    }
    assert t[o + (|line| - 1)] == '\n';
    IncludeDirectiveAt(t, i, |target|);
  }

  /**
   * A directive line `<pre>!include <target>` and its newline, found at offset
   * `o` of `t`, contributes one match, and the scan carries on after the line.
   */
  lemma LineAt(t: string, o: nat, i: nat, e: nat, pre: string, target: string, line: string)
    requires line == pre + "!include " + target + "\n"
    requires '!' !in pre && target != [] && forall c :: c in target ==> IsTargetChar(c)
    requires o + |line| <= |t| && forall k :: 0 <= k < |line| ==> t[o + k] == line[k]
    requires i == o + |pre| && e == o + |line|
    ensures Scan(t, o) == [Match(i, i + 9, e - 1)] + Scan(t, e)
  {
    LineChars(pre, target, line);
    forall k | o <= k < i ensures t[k] != '!' {
      assert t[o + (k - o)] == pre[k - o];
    }
    ScanSkips(t, o, i);
    DirectiveScan(t, o, i, e, pre, target, line);
  }

  /** From the `!` of such a line, the scan reports its directive and carries on after the newline. */
  lemma DirectiveScan(t: string, o: nat, i: nat, e: nat, pre: string, target: string, line: string)
    requires line == pre + "!include " + target + "\n"
    requires target != [] && forall c :: c in target ==> IsTargetChar(c)
    requires o + |line| <= |t| && forall k :: 0 <= k < |line| ==> t[o + k] == line[k]
    requires i == o + |pre| && e == o + |line|
    ensures i <= |t| && Scan(t, i) == [Match(i, i + 9, e - 1)] + Scan(t, e)
  {
    LineMatch(t, o, pre, target, line);
    LineEnd(t, o, pre, target, line);
    ScanStep(t, i, Match(i, i + 9, e - 1));
    ScanNoBang(t, e - 1);
  }

  /** Such a line ends with its newline. */
  lemma LineEnd(t: string, o: nat, pre: string, target: string, line: string)
    requires line == pre + "!include " + target + "\n"
    requires o + |line| <= |t| && forall k :: 0 <= k < |line| ==> t[o + k] == line[k]
    ensures t[o + |line| - 1] == '\n'
  {
    assert t[o + (|line| - 1)] == line[|line| - 1];
  }

  /** The second copy of a line sits at offset `|line|` of the doubled text. */
  lemma SecondCopy(line: string)
    ensures forall k :: 0 <= k < |line| ==> (line + line)[|line| + k] == line[k]
  {
  }

  /** Two identical directive lines: two matches, one per line. */
  lemma RepeatedScan(pre: string, target: string, line: string)
    requires line == pre + "!include " + target + "\n"
    requires '!' !in pre && target != [] && forall c :: c in target ==> IsTargetChar(c)
    ensures |Scan(line + line, 0)| == 2
    ensures Scan(line + line, 0)[0] == Match(|pre|, |pre| + 9, |line| - 1)
    ensures Scan(line + line, 0)[1] == Match(|line| + |pre|, |line| + |pre| + 9, 2 * |line| - 1)
  {
    var t := line + line;
    LineAt(t, 0, |pre|, |line|, pre, target, line);
    SecondCopy(line);
    LineAt(t, |line|, |line| + |pre|, 2 * |line|, pre, target, line);
    assert Scan(t, 2 * |line|) == [];
  }

  /** Each copy of the line captures the target. */
  lemma RepeatedCaptures(pre: string, target: string, line: string)
    requires line == pre + "!include " + target + "\n"
    ensures (line + line)[|pre| + 9..|line| - 1] == target
    ensures (line + line)[|line| + |pre| + 9..2 * |line| - 1] == target
  {
    assert line[|pre| + 9..|line| - 1] == target;
  }

  /** Two identical directive lines yield the target twice. */
  lemma RepeatedTargets(pre: string, target: string, line: string)
    requires line == pre + "!include " + target + "\n"
    requires '!' !in pre && target != [] && forall c :: c in target ==> IsTargetChar(c)
    ensures Targets(line + line) == [target, target]
  {
    RepeatedScan(pre, target, line);
    RepeatedCaptures(pre, target, line);
  }

  /** A target repeated on two directive lines is kept once by `yaml_includes`. */
  lemma RepeatedDirective(pre: string, target: string, line: string)
    requires line == pre + "!include " + target + "\n"
    requires '!' !in pre && target != [] && forall c :: c in target ==> IsTargetChar(c)
    ensures IncludesIn(line + line) == [target]
  {
    RepeatedTargets(pre, target, line);
    StrictlySortedUnique(IncludesIn(line + line), [target]);
  }

  /** `a: !include x.yaml` on two lines: one include. */
  lemma RepeatedDirectiveExample(line: string)
    requires line == "a: " + "!include " + "x.yaml" + "\n"
    ensures IncludesIn(line + line) == ["x.yaml"]
  {
    forall c | c in "x.yaml" ensures IsTargetChar(c) {
    }
    RepeatedDirective("a: ", "x.yaml", line);
  }

  /** A readable file whose suffix ends in `yaml` contributes the distinct targets of its text, sorted. */
  lemma YamlIncludesOfReadable(root: seq<Node>, p: Path, text: string)
    requires EndsWithLower(Suffix(Name(p)), "yaml") && ReadText(root, p) == Some(text)
    ensures YamlIncludes(root, p) == IncludesIn(text)
  {
  }

  /** The suffix test passes for a name `stem.ext` whose extension is `yaml` in any case. */
  lemma DottedYamlName(stem: string, ext: string)
    requires stem != [] && |ext| == 4 && '.' !in ext
    requires forall k :: 0 <= k < 4 ==> LowerChar(ext[k]) == "yaml"[k]
    ensures EndsWithLower(Suffix(Name([stem + "." + ext])), "yaml")
  {
    SuffixOfDotted(stem, ext);
    forall k | 0 <= k < 4 ensures LowerChar(("." + ext)[1 + k]) == "yaml"[k] {
      assert ("." + ext)[1 + k] == ext[k];
    }
  }

  /** A file whose suffix is `.yml` is never scanned, whatever it holds. */
  lemma YmlIsNotScanned(root: seq<Node>, p: Path)
    requires Suffix(Name(p)) == ".yml"
    ensures YamlIncludes(root, p) == []
  {
    assert LowerChar(Suffix(Name(p))[0]) != "yaml"[0];
  }


  /** The suffix test ignores case: `B.YAML` is scanned like `b.yaml`. */
  lemma UpperCaseYamlIsScanned(stem: string, ext: string, text: string)
    requires stem == "B" && ext == "YAML"
    ensures YamlIncludes([File(stem + "." + ext, Some(text))], [stem + "." + ext]) == IncludesIn(text)
  {
    DottedYamlName(stem, ext);
    YamlIncludesOfReadable([File(stem + "." + ext, Some(text))], [stem + "." + ext], text);
  }
}
