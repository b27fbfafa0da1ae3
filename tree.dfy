/**
 * The workspace as seen by the generator: a tree of named directories and
 * files, each file with its decoded text (or none when it cannot be read),
 * and paths as the segments below the root.
 */
module Tree {
  import opened Wrappers
  import opened Text

  datatype Node =
    | File(name: string, content: Option<string>)
    | Dir(name: string, children: seq<Node>)

  /** A path relative to the root, one name per segment; `[]` is the root itself. */
  type Path = seq<string>

  /** `str(p)` for a path below `.`: the segments joined by `/` (`str(Path('.', 'a', 'b')) == 'a/b'`). */
  function Str(p: Path): string
    decreases |p|
  {
    if p == [] then "" else if |p| == 1 then p[0] else p[0] + "/" + Str(p[1..])
  }

  /** A key without `/` that is longer than every segment does not occur in `str(p)`. */
  lemma {:induction false} LongKeyNotInStr(p: Path, key: string)
    requires key != [] && '/' !in key
    requires forall i :: 0 <= i < |p| ==> |p[i]| < |key|
    ensures !Contains(Str(p), key)
    decreases |p|
  {
    if |p| > 1 {
      var tail := p[1..];
      assert forall i :: 0 <= i < |tail| ==> tail[i] == p[i + 1];
      LongKeyNotInStr(tail, key);
      assert Str(p) == p[0] + "/" + Str(tail);
      if Contains(Str(p), key) {
        var k: nat :| k <= |Str(p)| && OccursAt(Str(p), key, k);
        OccursAcrossSlash(p[0], Str(tail), key, k);
      }
    }
  }

  /** `p.name`: the last segment. */
  function Name(p: Path): string {
    if p == [] then "" else p[|p| - 1]
  }

  /** Python's `s.rfind('.', 0, n)`: the index of the last `.` before index `n`, or -1. */
  function LastDot(s: string, n: nat): (i: int)
    requires n <= |s|
    ensures -1 <= i < n
    ensures 0 <= i ==> s[i] == '.'
    decreases n
  {
    if n == 0 then -1
    else if s[n - 1] == '.' then n - 1
    else LastDot(s, n - 1)
  }

  /** No `.` lies between the one `LastDot` finds and `n`. */
  lemma {:induction false} LastDotIsLast(s: string, n: nat)
    requires n <= |s|
    ensures forall k :: LastDot(s, n) < k < n ==> s[k] != '.'
    decreases n
  {
    if n > 0 && s[n - 1] != '.' {
      LastDotIsLast(s, n - 1);
    }
  }

  /** A `.` at `j` with none after it before `n` is the one `LastDot` finds. */
  lemma {:induction false} LastDotFinds(s: string, j: nat, n: nat)
    requires j < n <= |s| && s[j] == '.'
    requires forall k :: j < k < n ==> s[k] != '.'
    ensures LastDot(s, n) == j
    decreases n
  {
    if n - 1 != j {
      LastDotFinds(s, j, n - 1);
    }
  }

  /**
   * `PurePath.suffix` of a file name: from its last `.` to the end, unless that
   * `.` is the first or the last character, or there is none.
   */
  function Suffix(name: string): string {
    var i := LastDot(name, |name|);
    if 0 < i < |name| - 1 then name[i..] else ""
  }

  /**
   * The suffix is not empty exactly when some `.` other than the first and the
   * last character has no `.` after it.
   */
  lemma SuffixNonEmpty(name: string)
    ensures Suffix(name) != "" <==>
      exists k :: 0 < k < |name| - 1 && name[k] == '.' && forall m :: k < m < |name| ==> name[m] != '.'
  {
    var i := LastDot(name, |name|);
    if 0 < i < |name| - 1 {
      LastDotIsLast(name, |name|);
      assert name[i..] != "" by { assert name[i..][0] == '.'; }
    }
    if exists k :: 0 < k < |name| - 1 && name[k] == '.' && forall m :: k < m < |name| ==> name[m] != '.' {
      var k :| 0 < k < |name| - 1 && name[k] == '.' && forall m :: k < m < |name| ==> name[m] != '.';
      LastDotFinds(name, k, |name|);
    }
  }

  /** A non-empty suffix is a tail of the name of at least two characters that starts with its only `.`. */
  lemma SuffixShape(name: string)
    requires Suffix(name) != ""
    ensures 2 <= |Suffix(name)| < |name| && Suffix(name)[0] == '.'
    ensures EndsWith(name, Suffix(name)) && '.' !in Suffix(name)[1..]
  {
    var i := LastDot(name, |name|);
    LastDotIsLast(name, |name|);
    var r := name[i..];
    assert name[|name| - |r|..] == r;
    forall m | 0 <= m < |r| - 1 ensures r[1..][m] != '.' {
      assert r[1..][m] == name[i + 1 + m];
    }
  }

  /** The suffix of `stem.ext` is `.ext` when the stem is not empty and the extension has no `.`. */
  lemma SuffixOfDotted(stem: string, ext: string)
    requires stem != [] && ext != [] && '.' !in ext
    ensures Suffix(stem + "." + ext) == "." + ext
  {
    var name := stem + "." + ext;
    forall k | |stem| < k < |name| ensures name[k] != '.' {
      assert name[k] == ext[k - |stem| - 1];
    }
    LastDotFinds(name, |stem|, |name|);
    assert name[|stem|..] == "." + ext;
  }

  lemma SuffixExamples()
    ensures Suffix("configuration.yaml") == ".yaml"
    ensures Suffix("backup.tar.gz") == ".gz"
    ensures Suffix(".gitignore") == "" && Suffix("Makefile") == "" && Suffix("notes.") == ""
  {
    SuffixOfDotted("configuration", "yaml");
    assert "configuration" + "." + "yaml" == "configuration.yaml";
    SuffixOfDotted("backup.tar", "gz");
    assert "backup.tar" + "." + "gz" == "backup.tar.gz";
    assert ".gitignore"[0] == '.';
    assert LastDot(".gitignore", 10) == 0;
    assert LastDot("notes.", 6) == 5;
  }

  /** The first entry named `n`: the entry the operating system finds under that name. */
  function Child(entries: seq<Node>, n: string): (r: Option<Node>)
    ensures r.Some? ==> r.value in entries && r.value.name == n
    ensures r.None? <==> forall e :: e in entries ==> e.name != n
  {
    if entries == [] then None
    else if entries[0].name == n then Some(entries[0])
    else Child(entries[1..], n)
  }

  /** The node that path `p` resolves to below the directory whose entries are given. */
  function NodeAt(entries: seq<Node>, p: Path): Option<Node>
    decreases |p|
  {
    if p == [] then None
    else match Child(entries, p[0])
      case None => None
      case Some(c) =>
        if |p| == 1 then Some(c)
        else match c
          case File(_, _) => None
          case Dir(_, cs) => NodeAt(cs, p[1..])
  }

  /** `path.read_text(...)`: the text of the file at `p`; no text when `p` is missing, a directory, or unreadable. */
  function ReadText(root: seq<Node>, p: Path): Option<string> {
    match NodeAt(root, p)
    case Some(File(_, c)) => c
    case _ => None
  }

  /** `path.is_dir()` */
  predicate IsDirAt(root: seq<Node>, p: Path) {
    NodeAt(root, p).Some? && NodeAt(root, p).value.Dir?
  }

  /** `p` leads, through directories, to a file somewhere below the given entries. */
  ghost predicate FileAt(entries: seq<Node>, p: Path)
    decreases |p|, 1
  {
    exists i :: 0 <= i < |entries| && FileUnder(entries[i], p)
  }

  /** `p` starts with the name of entry `e` and leads from it to a file (`e` itself when `p` has one segment). */
  ghost predicate FileUnder(e: Node, p: Path)
    decreases |p|, 0
  {
    |p| >= 1 && e.name == p[0] &&
    if |p| == 1 then e.File? else e.Dir? && FileAt(e.children, p[1..])
  }

  /** No two entries of a directory share a name. */
  ghost predicate UniqueNames(entries: seq<Node>) {
    forall i, j :: 0 <= i < j < |entries| ==> entries[i].name != entries[j].name
  }

  /** What every real directory tree satisfies: unique names in each directory, and no name holding `/`. */
  ghost predicate WellFormed(entries: seq<Node>)
    decreases entries
  {
    UniqueNames(entries) &&
    (forall i :: 0 <= i < |entries| ==> '/' !in entries[i].name) &&
    forall i :: 0 <= i < |entries| && entries[i].Dir? ==> WellFormed(entries[i].children)
  }

  /** No segment of `p` holds `/`. */
  ghost predicate SlashFree(p: Path) {
    forall k :: 0 <= k < |p| ==> '/' !in p[k]
  }

  /** In a well-formed tree, no segment of a path that leads to a file holds `/`. */
  lemma {:induction false} FileAtSlashFree(entries: seq<Node>, p: Path)
    requires WellFormed(entries) && FileAt(entries, p)
    ensures SlashFree(p)
    decreases |p|
  {
    var i :| 0 <= i < |entries| && FileUnder(entries[i], p);
    if |p| > 1 {
      FileAtSlashFree(entries[i].children, p[1..]);
      forall k | 0 <= k < |p| ensures '/' !in p[k] {
        if k > 0 {
          assert p[k] == p[1..][k - 1];
        }
      }
    }
  }

  /** The first segment of `str(p)` ends at its first `/`. */
  lemma StrHead(p: Path)
    requires |p| > 1 && '/' !in p[0]
    ensures Str(p) == p[0] + "/" + Str(p[1..])
    ensures |p[0]| < |Str(p)| && Str(p)[|p[0]|] == '/' && Str(p)[..|p[0]|] == p[0]
    ensures Str(p)[|p[0]| + 1..] == Str(p[1..])
  {
  }

  /**
   * Two non-empty paths whose segments hold no `/` have the same string only
   * when they are the same path: `str` loses nothing on real paths.
   */
  lemma {:induction false} StrInjective(p: Path, q: Path)
    requires |p| >= 1 && |q| >= 1 && SlashFree(p) && SlashFree(q)
    requires Str(p) == Str(q)
    ensures p == q
    decreases |p|
  {
    if |p| == 1 && |q| > 1 {
      StrHead(q);
      assert false;
    } else if |p| > 1 && |q| == 1 {
      StrHead(p);
      assert false;
    } else if |p| > 1 {
      StrHead(p);
      StrHead(q);
      if |p[0]| < |q[0]| {
        assert false;
      } else if |q[0]| < |p[0]| {
        assert false;
      }
      assert SlashFree(p[1..]) && SlashFree(q[1..]) by {
        assert forall k :: 0 <= k < |p| - 1 ==> p[1..][k] == p[k + 1];
        assert forall k :: 0 <= k < |q| - 1 ==> q[1..][k] == q[k + 1];
      }
      StrInjective(p[1..], q[1..]);
      assert p == [p[0]] + p[1..] && q == [q[0]] + q[1..];
    }
  }

  /** The path string `path` names something inside the top-level directory `d`: it starts with `d/`. */
  predicate Below(d: string, path: string) {
    |d| < |path| && path[..|d| + 1] == d + "/"
  }

  /** A `/`-free prefix of `t` puts no `/` in its positions of `t`. */
  lemma NoSlashInPrefix(seg: string, t: string)
    requires '/' !in seg && |seg| <= |t| && t[..|seg|] == seg
    ensures forall i :: 0 <= i < |seg| ==> t[i] != '/'
  {
    forall i | 0 <= i < |seg| ensures t[i] != '/' {
      assert t[i] == t[..|seg|][i];
    }
  }

  /** A path string that starts with `d/`, for a `/`-free `d`, comes from a path whose first segment is `d`. */
  lemma StrBelow(p: Path, d: string)
    requires |p| >= 1 && SlashFree(p) && '/' !in d && Below(d, Str(p))
    ensures |p| > 1 && p[0] == d
  {
    var t := Str(p);
    assert t[|d|] == '/' by {
      assert t[|d|] == t[..|d| + 1][|d|];
    }
    assert t[..|d|] == d by {
      assert t[..|d|] == t[..|d| + 1][..|d|];
    }
    if |p| == 1 {
      assert false;
    }
    StrHead(p);
    NoSlashInPrefix(d, t);
    NoSlashInPrefix(p[0], t);
    assert |p[0]| == |d|;
  }

  /** In a well-formed tree, a path that leads to a file resolves to that file. */
  lemma {:induction false} FileAtResolves(entries: seq<Node>, p: Path)
    requires WellFormed(entries) && FileAt(entries, p)
    ensures NodeAt(entries, p).Some? && NodeAt(entries, p).value.File?
    decreases |p|
  {
    var i :| 0 <= i < |entries| && FileUnder(entries[i], p);
    ChildIsUnique(entries, i);
    if |p| > 1 {
      FileAtResolves(entries[i].children, p[1..]);
    }
  }

  /** Among uniquely named entries, looking a name up finds the entry that has it. */
  lemma {:induction false} ChildIsUnique(entries: seq<Node>, i: nat)
    requires UniqueNames(entries) && i < |entries|
    ensures Child(entries, entries[i].name) == Some(entries[i])
    decreases |entries|
  {
    if i > 0 {
      assert entries[0].name != entries[i].name;
      assert UniqueNames(entries[1..]) by {
        forall a, b | 0 <= a < b < |entries| - 1 ensures entries[1..][a].name != entries[1..][b].name {
          assert entries[1..][a] == entries[a + 1] && entries[1..][b] == entries[b + 1];
        }
      }
      ChildIsUnique(entries[1..], i - 1);
    }
  }
}
