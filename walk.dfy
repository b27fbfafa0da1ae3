/**
 * `list_all`: the recursive walk from the root that prunes excluded
 * directories, drops excluded file names, keeps files only, and returns the
 * paths sorted by their string form.
 */
module Walk {
  import opened Order
  import opened Exclusion
  import opened Tree

  /** The paths the walk lists for entry `e` of directory `dir`. */
  function KeptNode(dir: Path, e: Node): seq<Path>
    decreases e
  {
    match e
    case File(n, _) => if IsSkipFile(n) then [] else [dir + [n]]
    case Dir(n, cs) => if IsSkipDir(n) then [] else KeptIn(dir + [n], cs)
  }

  /** The paths the walk lists below directory `dir`, whose entries are given, in depth-first order. */
  function KeptIn(dir: Path, entries: seq<Node>): seq<Path>
    decreases entries
  {
    if entries == [] then [] else KeptNode(dir, entries[0]) + KeptIn(dir, entries[1..])
  }

  /** The paths the walk lists from the root, before sorting. */
  function KeptFiles(root: seq<Node>): seq<Path> {
    KeptIn([], root)
  }

  /** No directory on the way to `r` is excluded, and its own name is not. */
  ghost predicate Admitted(r: Path) {
    |r| >= 1 && (forall k :: 0 <= k < |r| - 1 ==> !IsSkipDir(r[k])) && !IsSkipFile(r[|r| - 1])
  }

  /** The files `list_all` must report: reachable files whose path passes every exclusion rule. */
  ghost predicate Listed(root: seq<Node>, p: Path) {
    FileAt(root, p) && Admitted(p)
  }

  lemma {:induction false} KeptNodeSound(dir: Path, e: Node, q: Path)
    requires q in KeptNode(dir, e)
    ensures |q| > |dir| && q[..|dir|] == dir
    ensures FileUnder(e, q[|dir|..]) && Admitted(q[|dir|..])
    decreases e
  {
    match e
    case File(n, _) =>
      assert q == dir + [n] && q[|dir|..] == [n];
    case Dir(n, cs) =>
      KeptInSound(dir + [n], cs, q);
      var r := q[|dir| + 1..];
      assert q[..|dir| + 1] == dir + [n];
      assert q[..|dir|] == dir by { assert q[..|dir|] == q[..|dir| + 1][..|dir|]; }
      assert q[|dir|..] == [n] + r;
      assert ([n] + r)[1..] == r;
      forall k | 0 <= k < |[n] + r| - 1 ensures !IsSkipDir(([n] + r)[k]) {
        if k > 0 { assert ([n] + r)[k] == r[k - 1]; }
      }
  }

  /** Every path listed below `dir` extends `dir` by a path to a file that passes the exclusion rules. */
  lemma {:induction false} KeptInSound(dir: Path, entries: seq<Node>, q: Path)
    requires q in KeptIn(dir, entries)
    ensures |q| > |dir| && q[..|dir|] == dir
    ensures FileAt(entries, q[|dir|..]) && Admitted(q[|dir|..])
    decreases entries
  {
    if q in KeptNode(dir, entries[0]) {
      KeptNodeSound(dir, entries[0], q);
    } else {
      KeptInSound(dir, entries[1..], q);
      var i :| 0 <= i < |entries| - 1 && FileUnder(entries[1..][i], q[|dir|..]);
      assert entries[1..][i] == entries[i + 1];
    }
  }

  /** The paths listed for one entry are among those listed for its directory. */
  lemma {:induction false} KeptInIncludesEntry(dir: Path, entries: seq<Node>, i: nat)
    requires i < |entries|
    ensures forall q :: q in KeptNode(dir, entries[i]) ==> q in KeptIn(dir, entries)
    decreases |entries|
  {
    if i > 0 {
      KeptInIncludesEntry(dir, entries[1..], i - 1);
      assert entries[1..][i - 1] == entries[i];
    }
  }

  lemma {:induction false} KeptNodeComplete(dir: Path, e: Node, r: Path)
    requires FileUnder(e, r) && Admitted(r)
    ensures dir + r in KeptNode(dir, e)
    decreases |r|, 0
  {
    if |r| == 1 {
      assert r == [e.name];
    } else {
      var rest := r[1..];
      assert Admitted(rest) by {
        forall k | 0 <= k < |rest| - 1 ensures !IsSkipDir(rest[k]) {
          assert rest[k] == r[k + 1];
        }
      }
      KeptInComplete(dir + [e.name], e.children, rest);
      assert dir + [e.name] + rest == dir + r by { assert r == [e.name] + rest; }
    }
  }

  /** Every reachable file that passes the exclusion rules is listed. */
  lemma {:induction false} KeptInComplete(dir: Path, entries: seq<Node>, r: Path)
    requires FileAt(entries, r) && Admitted(r)
    ensures dir + r in KeptIn(dir, entries)
    decreases |r|, 1
  {
    var i :| 0 <= i < |entries| && FileUnder(entries[i], r);
    KeptNodeComplete(dir, entries[i], r);
    KeptInIncludesEntry(dir, entries, i);
  }

  /** The walk lists exactly the reachable files whose path passes the exclusion rules. */
  lemma KeptFilesMeaning(root: seq<Node>, p: Path)
    ensures p in KeptFiles(root) <==> Listed(root, p)
  {
    if p in KeptFiles(root) {
      KeptInSound([], root, p);
      assert p[0..] == p;
    }
    if Listed(root, p) {
      KeptInComplete([], root, p);
      assert [] + p == p;
    }
  }

  lemma WellFormedTail(entries: seq<Node>)
    requires WellFormed(entries) && entries != []
    ensures WellFormed(entries[1..])
  {
    forall i | 0 <= i < |entries| - 1 ensures entries[1..][i] == entries[i + 1] {}
  }

  lemma {:induction false} KeptNodeAtMostOnce(dir: Path, e: Node, q: Path)
    requires e.Dir? ==> WellFormed(e.children)
    ensures multiset(KeptNode(dir, e))[q] <= 1
    decreases e
  {
    match e
    case File(_, _) =>
    case Dir(n, cs) =>
      if !IsSkipDir(n) {
        KeptInAtMostOnce(dir + [n], cs, q);
      }
  }

  /** In a well-formed tree the walk meets each path at most once. */
  lemma {:induction false} KeptInAtMostOnce(dir: Path, entries: seq<Node>, q: Path)
    requires WellFormed(entries)
    ensures multiset(KeptIn(dir, entries))[q] <= 1
    decreases entries
  {
    if entries != [] {
      var e := entries[0];
      WellFormedTail(entries);
      KeptNodeAtMostOnce(dir, e, q);
      KeptInAtMostOnce(dir, entries[1..], q);
      if q in KeptNode(dir, e) && q in KeptIn(dir, entries[1..]) {
        KeptNodeSound(dir, e, q);
        KeptInSound(dir, entries[1..], q);
      }
    }
  }

  /** In a well-formed tree every file that passes the exclusion rules is listed exactly once. */
  lemma ListedExactlyOnce(root: seq<Node>, p: Path)
    requires WellFormed(root) && Listed(root, p)
    ensures multiset(KeptFiles(root))[p] == 1
  {
    KeptFilesMeaning(root, p);
    KeptInAtMostOnce([], root, p);
  }

  /** In a well-formed tree a listed path resolves to a file, never to a directory. */
  lemma ListedIsFile(root: seq<Node>, p: Path)
    requires WellFormed(root) && Listed(root, p)
    ensures NodeAt(root, p).Some? && NodeAt(root, p).value.File? && !IsDirAt(root, p)
  {
    FileAtResolves(root, p);
  }

  /** In a well-formed tree two listed files with the same path string are the same file. */
  lemma ListedStrInjective(root: seq<Node>, p: Path, q: Path)
    requires WellFormed(root) && Listed(root, p) && Listed(root, q) && Str(p) == Str(q)
    ensures p == q
  {
    FileAtSlashFree(root, p);
    FileAtSlashFree(root, q);
    StrInjective(p, q);
  }

  // Sorting by string form: `sorted(files, key=str)`.

  predicate SortedByStr(ps: seq<Path>) {
    forall i :: 0 < i < |ps| ==> LexLe(Str(ps[i - 1]), Str(ps[i]))
  }

  function InsertByStr(p: Path, ps: seq<Path>): (r: seq<Path>)
    requires SortedByStr(ps)
    ensures SortedByStr(r)
    ensures multiset(r) == multiset(ps) + multiset{p}
    ensures |r| > 0 && (r[0] == p || (ps != [] && r[0] == ps[0]))
    decreases |ps|
  {
    if ps == [] then [p]
    else if LexLe(Str(p), Str(ps[0])) then [p] + ps
    else
      LexLeTotal(Str(p), Str(ps[0]));
      var rest := InsertByStr(p, ps[1..]);
      assert ps == [ps[0]] + ps[1..];
      [ps[0]] + rest
  }

  /** `sorted(ps, key=str)`: the same paths, ordered by their string form. */
  function SortByStr(ps: seq<Path>): (r: seq<Path>)
    ensures SortedByStr(r)
    ensures multiset(r) == multiset(ps)
    decreases |ps|
  {
    if ps == [] then []
    else
      assert ps == [ps[0]] + ps[1..];
      InsertByStr(ps[0], SortByStr(ps[1..]))
  }

  // The walk itself.

  /** One directory still to be visited by `os.walk`: its path and its entries. */
  datatype Frame = Frame(dir: Path, entries: seq<Node>)

  /** What the walk will still list from the frames on the stack. */
  function Pending(stack: seq<Frame>): seq<Path>
    decreases |stack|
  {
    if stack == [] then [] else KeptIn(stack[0].dir, stack[0].entries) + Pending(stack[1..])
  }

  lemma {:induction false} PendingAppend(a: seq<Frame>, b: seq<Frame>)
    ensures Pending(a + b) == Pending(a) + Pending(b)
    decreases |a|
  {
    if a != [] {
      PendingAppend(a[1..], b);
      assert (a + b)[0] == a[0] && (a + b)[1..] == a[1..] + b;
    } else {
      assert a + b == b;
    }
  }

  ghost function Size(e: Node): nat
    decreases e
  {
    match e
    case File(_, _) => 1
    case Dir(_, cs) => 1 + SizeIn(cs)
  }

  ghost function SizeIn(entries: seq<Node>): nat
    decreases entries
  {
    if entries == [] then 0 else Size(entries[0]) + SizeIn(entries[1..])
  }

  ghost function StackSize(stack: seq<Frame>): nat
    decreases |stack|
  {
    if stack == [] then 0 else SizeIn(stack[0].entries) + StackSize(stack[1..])
  }

  lemma {:induction false} StackSizeAppend(a: seq<Frame>, b: seq<Frame>)
    ensures StackSize(a + b) == StackSize(a) + StackSize(b)
    decreases |a|
  {
    if a != [] {
      StackSizeAppend(a[1..], b);
      assert (a + b)[0] == a[0] && (a + b)[1..] == a[1..] + b;
    } else {
      assert a + b == b;
    }
  }

  /** What visiting one entry of directory `dir` yields: the entry's path if it is a kept file. */
  function FileOf(dir: Path, e: Node): seq<Path> {
    match e
    case File(n, _) => if IsSkipFile(n) then [] else [dir + [n]]
    case Dir(_, _) => []
  }

  /** What visiting one entry of directory `dir` leaves to visit: the entry if it is a kept directory. */
  function SubdirOf(dir: Path, e: Node): seq<Frame> {
    match e
    case File(_, _) => []
    case Dir(n, cs) => if IsSkipDir(n) then [] else [Frame(dir + [n], cs)]
  }

  /** The kept files among `entries`, in listing order: the `fn` loop of one `os.walk` step. */
  function FilesOf(dir: Path, entries: seq<Node>): seq<Path>
    decreases |entries|
  {
    if entries == [] then []
    else FilesOf(dir, entries[..|entries| - 1]) + FileOf(dir, entries[|entries| - 1])
  }

  /** The kept subdirectories among `entries`, in listing order: `dn` after pruning. */
  function SubdirsOf(dir: Path, entries: seq<Node>): seq<Frame>
    decreases |entries|
  {
    if entries == [] then []
    else SubdirsOf(dir, entries[..|entries| - 1]) + SubdirOf(dir, entries[|entries| - 1])
  }

  /** Appending an entry appends what the walk lists for it. */
  lemma {:induction false} KeptInSnoc(dir: Path, entries: seq<Node>, e: Node)
    ensures KeptIn(dir, entries + [e]) == KeptIn(dir, entries) + KeptNode(dir, e)
    ensures SizeIn(entries + [e]) == SizeIn(entries) + Size(e)
    decreases |entries|
  {
    if entries == [] {
      assert entries + [e] == [e] && [e][1..] == [];
    } else {
      KeptInSnoc(dir, entries[1..], e);
      assert (entries + [e])[1..] == entries[1..] + [e];
    }
  }

  /** What one entry yields and leaves to visit is what the walk lists for it. */
  lemma EntrySplit(dir: Path, e: Node)
    ensures FileOf(dir, e) + Pending(SubdirOf(dir, e)) == KeptNode(dir, e)
    ensures StackSize(SubdirOf(dir, e)) < Size(e)
  {
    match e {
      case File(_, _) =>
      case Dir(n, cs) =>
        if !IsSkipDir(n) {
          assert Pending([Frame(dir + [n], cs)]) == KeptIn(dir + [n], cs);
          assert StackSize([Frame(dir + [n], cs)]) == SizeIn(cs);
        }
    }
  }

  /**
   * The files found in a directory and the files below the subdirectories it
   * leaves to visit are, together, what the walk lists below it.
   */
  lemma {:induction false} VisitSplit(dir: Path, entries: seq<Node>)
    ensures multiset(FilesOf(dir, entries)) + multiset(Pending(SubdirsOf(dir, entries))) == multiset(KeptIn(dir, entries))
    decreases |entries|
  {
    if entries != [] {
      var init := entries[..|entries| - 1];
      var e := entries[|entries| - 1];
      VisitSplit(dir, init);
      assert entries == init + [e];
      KeptInSnoc(dir, init, e);
      PendingAppend(SubdirsOf(dir, init), SubdirOf(dir, e));
      EntrySplit(dir, e);
      assert multiset(KeptNode(dir, e)) == multiset(FileOf(dir, e)) + multiset(Pending(SubdirOf(dir, e)));
    }
  }

  /** The subdirectories a directory leaves to visit are fewer and smaller than its entries. */
  lemma {:induction false} VisitShrinks(dir: Path, entries: seq<Node>)
    ensures |SubdirsOf(dir, entries)| <= |entries|
    ensures StackSize(SubdirsOf(dir, entries)) + |entries| <= SizeIn(entries)
    decreases |entries|
  {
    if entries != [] {
      var init := entries[..|entries| - 1];
      var e := entries[|entries| - 1];
      VisitShrinks(dir, init);
      assert entries == init + [e];
      KeptInSnoc(dir, init, e);
      StackSizeAppend(SubdirsOf(dir, init), SubdirOf(dir, e));
      EntrySplit(dir, e);
    }
  }

  /**
   * One step of the walk, for directory `dir` with the given entries: the
   * paths of its files whose names are not excluded, in listing order, and the
   * subdirectories still to visit once the excluded ones are dropped
   * (`dn[:] = [d for d in dn if not is_skip_dir(d)]`).
   */
  method VisitDir(dir: Path, entries: seq<Node>) returns (found: seq<Path>, subdirs: seq<Frame>)
    ensures found == FilesOf(dir, entries)
    ensures subdirs == SubdirsOf(dir, entries)
  {
    found, subdirs := [], [];
    var i := 0;
    while i < |entries|
      invariant 0 <= i <= |entries|
      invariant found == FilesOf(dir, entries[..i])
      invariant subdirs == SubdirsOf(dir, entries[..i])
    {
      assert entries[..i + 1][..i] == entries[..i];
      match entries[i] {
        case File(n, _) =>
          if !IsSkipFile(n) {
            found := found + [dir + [n]];
          }
        case Dir(n, cs) =>
          if !IsSkipDir(n) {
            subdirs := subdirs + [Frame(dir + [n], cs)];
          }
      }
      i := i + 1;
    }
    assert entries[..i] == entries;
  }

  lemma SplitLast(stack: seq<Frame>)
    requires stack != []
    ensures stack == stack[..|stack| - 1] + [stack[|stack| - 1]]
  {
  }

  /** Replacing the top frame by the subdirectories it leaves to visit keeps what is pending. */
  lemma WalkStep(rest: seq<Frame>, top: Frame, subdirs: seq<Frame>, found: seq<Path>)
    requires multiset(found) + multiset(Pending(subdirs)) == multiset(KeptIn(top.dir, top.entries))
    ensures multiset(found) + multiset(Pending(rest + subdirs)) == multiset(Pending(rest + [top]))
  {
    PendingAppend(rest, [top]);
    assert Pending([top]) == KeptIn(top.dir, top.entries);
    PendingAppend(rest, subdirs);
  }

  /** Replacing the top frame by the subdirectories it leaves to visit shrinks the stack. */
  lemma WalkShrinks(rest: seq<Frame>, top: Frame, subdirs: seq<Frame>)
    requires |subdirs| <= |top.entries|
    requires StackSize(subdirs) + |top.entries| <= SizeIn(top.entries)
    ensures StackSize(rest + subdirs) < StackSize(rest + [top]) ||
      (StackSize(rest + subdirs) == StackSize(rest + [top]) && |rest + subdirs| < |rest + [top]|)
  {
    StackSizeAppend(rest, [top]);
    assert StackSize([top]) == SizeIn(top.entries);
    StackSizeAppend(rest, subdirs);
    if top.entries == [] {
      assert subdirs == [];
    }
  }

  /**
   * `list_all(root)`: a top-down walk that keeps a stack of directories to
   * visit, as `os.walk` does, visits each with `VisitDir`, and finally sorts
   * the paths found by their string form.
   */
  method ListAll(root: seq<Node>) returns (files: seq<Path>)
    ensures SortedByStr(files)
    ensures multiset(files) == multiset(KeptFiles(root))
    ensures forall p :: p in files <==> Listed(root, p)
  {
    var found: seq<Path> := [];
    var stack: seq<Frame> := [Frame([], root)];
    assert Pending(stack) == KeptFiles(root);
    while stack != []
      invariant multiset(found) + multiset(Pending(stack)) == multiset(KeptFiles(root))
      decreases StackSize(stack), |stack|
    {
      var top := stack[|stack| - 1];
      var rest := stack[..|stack| - 1];
      SplitLast(stack);
      var more, subdirs := VisitDir(top.dir, top.entries);
      VisitSplit(top.dir, top.entries);
      VisitShrinks(top.dir, top.entries);
      WalkStep(rest, top, subdirs, more);
      WalkShrinks(rest, top, subdirs);
      found := found + more;
      stack := rest + subdirs;
    }
    files := SortByStr(found);
    forall p ensures p in files <==> Listed(root, p) {
      assert p in files <==> p in multiset(files);
      assert p in KeptFiles(root) <==> p in multiset(KeptFiles(root));
      KeptFilesMeaning(root, p);
    }
  }
}
