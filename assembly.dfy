/**
 * What `main` puts together: the root map of the top-level entries, the
 * include map of the listed files, its normalised copy `relations`, one
 * record per listed file, and the fixed fields of the snapshot.
 */
module Assembly {
  import opened Wrappers
  import opened Text
  import opened Order
  import opened Exclusion
  import opened Tree
  import opened Descriptor
  import opened Includes
  import opened Walk

  /** The `type` field: `"file"` or `"directory"`. */
  datatype EntryType = FileType | DirectoryType

  /** A root-map value: its type, and its description when there is one. */
  datatype Info = Info(kind: EntryType, description: Option<string>)

  /** One element of `files`: the path string, its type, and its description when there is one. */
  datatype FileEntry = FileEntry(path: string, kind: EntryType, description: Option<string>)

  /** The `usage_rules` object. */
  datatype UsageRules = UsageRules(modelBehavior: string, rules: seq<string>)

  /** The whole `project_structure.json` document. */
  datatype Snapshot = Snapshot(
    projectName: string,
    repository: string,
    generated: string,
    root: map<string, Info>,
    files: seq<FileEntry>,
    yamlIncludes: map<string, seq<string>>,
    relations: map<string, seq<string>>,
    usageRules: UsageRules)

  const ProjectName := "Home Assistant Configuration"

  const Rules := UsageRules(
    "Использовать JSON как карту структуры проекта.",
    [
      "ESPHome → /esphome/",
      "Zigbee → /zigbee2mqtt/",
      "Автоматизации → /blueprints/ или includes/automations.yaml",
      "Главные настройки → configuration.yaml",
      "Не выдумывать файлы вне структуры."
    ])

  /** The optional `description` field for a description `d`: absent when `d` is empty. */
  function Described(d: string): Option<string> {
    if d == "" then None else Some(d)
  }

  /**
   * `top_level`: the entries of the root whose name is not an excluded
   * directory name. Only the name is tested, so a root file such as `x.log`
   * stays.
   */
  function TopLevel(root: seq<Node>): (r: seq<Node>)
    ensures |r| <= |root|
    ensures forall e :: e in r <==> e in root && !IsSkipDir(e.name)
    decreases |root|
  {
    if root == [] then []
    else
      assert root == [root[0]] + root[1..];
      (if IsSkipDir(root[0].name) then [] else [root[0]]) + TopLevel(root[1..])
  }

  /** A root file with an excluded suffix stays in the root map; an excluded directory name does not. */
  lemma TopLevelTestsNamesOnly()
    ensures IsSkipFile("x.log")
    ensures TopLevel([File("x.log", None), Dir(".git", [])]) == [File("x.log", None)]
  {
    assert EndsWith("x.log", ".log");
    assert !IsSkipDir("x.log") && IsSkipDir(".git");
    assert [File("x.log", None), Dir(".git", [])][1..] == [Dir(".git", [])];
  }

  /** The root-map value for a top-level entry; `str` of the entry is its name. */
  function RootInfo(e: Node): (r: Info)
    ensures r.kind == DirectoryType <==> e.Dir?
    ensures r.description.Some? <==> Describe([e.name]) != ""
    ensures r.description.Some? ==> r.description.value == Describe([e.name])
  {
    Info(if e.Dir? then DirectoryType else FileType, Described(Describe([e.name])))
  }

  /** The map `build_root_map` has built after the given entries: the specification of `BuildRootMap`. */
  function RootMap(entries: seq<Node>): map<string, Info>
    decreases |entries|
  {
    if entries == [] then map[]
    else
      var e := entries[|entries| - 1];
      RootMap(entries[..|entries| - 1])[e.name := RootInfo(e)]
  }

  /** One key per entry name and no other. */
  lemma {:induction false} RootMapKeys(entries: seq<Node>)
    ensures forall n :: n in RootMap(entries) <==> exists e :: e in entries && e.name == n
    decreases |entries|
  {
    if entries != [] {
      var init := entries[..|entries| - 1];
      RootMapKeys(init);
      assert entries == init + [entries[|entries| - 1]];
    }
  }

  /** Each value is the value for some entry with that name. */
  lemma {:induction false} RootMapFromEntries(entries: seq<Node>)
    ensures forall n :: n in RootMap(entries) ==> exists e :: e in entries && e.name == n && RootMap(entries)[n] == RootInfo(e)
    decreases |entries|
  {
    if entries != [] {
      var init := entries[..|entries| - 1];
      RootMapFromEntries(init);
      assert entries == init + [entries[|entries| - 1]];
    }
  }

  /** No entry after the `i`-th has its name, so its value is the one that stays in a map keyed by name. */
  ghost predicate LastNamed(entries: seq<Node>, i: nat)
    requires i < |entries|
  {
    forall j :: i < j < |entries| ==> entries[j].name != entries[i].name
  }

  /** The last entry of each name wins. */
  lemma {:induction false} RootMapLastWins(entries: seq<Node>, i: nat)
    requires i < |entries| && LastNamed(entries, i)
    ensures entries[i].name in RootMap(entries) && RootMap(entries)[entries[i].name] == RootInfo(entries[i])
    decreases |entries|
  {
    var n := |entries| - 1;
    var init := entries[..n];
    if i < n {
      assert init[i] == entries[i];
      assert LastNamed(init, i) by {
        forall j | i < j < |init| ensures init[j].name != init[i].name {
          assert init[j] == entries[j];
        }
      }
      RootMapLastWins(init, i);
    }
  }

  /** `build_root_map(entries)`: each entry's value stored under its name, in order. */
  method BuildRootMap(entries: seq<Node>) returns (out: map<string, Info>)
    ensures out == RootMap(entries)
  {
    out := map[];
    var i := 0;
    while i < |entries|
      invariant 0 <= i <= |entries|
      invariant out == RootMap(entries[..i])
    {
      var e := entries[i];
      assert entries[..i + 1][..i] == entries[..i];
      out := out[e.name := RootInfo(e)];
      i := i + 1;
    }
    assert entries[..i] == entries;
  }

  /**
   * The dict `collect_includes` fills from (key, list) pairs taken in order:
   * a non-empty list is stored under its key, replacing what was there; an
   * empty one leaves the dict alone.
   */
  function Collect(pairs: seq<(string, seq<string>)>): map<string, seq<string>>
    decreases |pairs|
  {
    if pairs == [] then map[]
    else
      var m := Collect(pairs[..|pairs| - 1]);
      var (k, v) := pairs[|pairs| - 1];
      if v != [] then m[k := v] else m
  }

  /** One more pair: stored when its list is non-empty, ignored otherwise. */
  lemma CollectSnoc(pairs: seq<(string, seq<string>)>, k: string, v: seq<string>)
    ensures Collect(pairs + [(k, v)]) == if v != [] then Collect(pairs)[k := v] else Collect(pairs)
  {
    assert (pairs + [(k, v)])[..|pairs|] == pairs;
  }

  /** The keys are those of the pairs whose list is non-empty. */
  lemma {:induction false} CollectKeys(pairs: seq<(string, seq<string>)>)
    ensures forall k :: k in Collect(pairs) <==>
      exists j :: 0 <= j < |pairs| && pairs[j].0 == k && pairs[j].1 != []
    decreases |pairs|
  {
    if pairs != [] {
      var n := |pairs| - 1;
      var init := pairs[..n];
      CollectKeys(init);
      forall k ensures k in Collect(pairs) <==> exists j :: 0 <= j < |pairs| && pairs[j].0 == k && pairs[j].1 != [] {
        if k in Collect(pairs) && !(pairs[n].0 == k && pairs[n].1 != []) {
          assert k in Collect(init);
          var j :| 0 <= j < |init| && init[j].0 == k && init[j].1 != [];
          assert pairs[j] == init[j];
        }
        if exists j :: 0 <= j < |pairs| && pairs[j].0 == k && pairs[j].1 != [] {
          var j :| 0 <= j < |pairs| && pairs[j].0 == k && pairs[j].1 != [];
          if j < n {
            assert init[j] == pairs[j];
          }
        }
      }
    }
  }

  /** No later pair with the key of the `i`-th carries a non-empty list. */
  ghost predicate LastNonEmpty(pairs: seq<(string, seq<string>)>, i: nat)
    requires i < |pairs|
  {
    forall j :: i < j < |pairs| && pairs[j].0 == pairs[i].0 ==> pairs[j].1 == []
  }

  /** A key holds the list of the last pair with that key and a non-empty list. */
  lemma {:induction false} CollectLastWins(pairs: seq<(string, seq<string>)>, i: nat)
    requires i < |pairs| && pairs[i].1 != [] && LastNonEmpty(pairs, i)
    ensures pairs[i].0 in Collect(pairs) && Collect(pairs)[pairs[i].0] == pairs[i].1
    decreases |pairs|
  {
    var n := |pairs| - 1;
    var init := pairs[..n];
    if i < n {
      assert init[i] == pairs[i];
      assert LastNonEmpty(init, i) by {
        forall j | i < j < |init| && init[j].0 == init[i].0 ensures init[j].1 == [] {
          assert init[j] == pairs[j];
        }
      }
      CollectLastWins(init, i);
    }
  }

  /** Every value is the non-empty list of some pair with its key. */
  lemma {:induction false} CollectFromPairs(pairs: seq<(string, seq<string>)>)
    ensures forall k :: k in Collect(pairs) ==>
      exists j :: 0 <= j < |pairs| && pairs[j] == (k, Collect(pairs)[k]) && pairs[j].1 != []
    decreases |pairs|
  {
    if pairs != [] {
      var n := |pairs| - 1;
      var init := pairs[..n];
      CollectFromPairs(init);
      forall k | k in Collect(pairs)
        ensures exists j :: 0 <= j < |pairs| && pairs[j] == (k, Collect(pairs)[k]) && pairs[j].1 != []
      {
        if !(pairs[n].0 == k && pairs[n].1 != []) {
          var j :| 0 <= j < |init| && init[j] == (k, Collect(init)[k]) && init[j].1 != [];
          assert pairs[j] == init[j];
        }
      }
    }
  }

  /** The pairs `collect_includes` sees, in order: each file's path string with its include list. */
  function IncludePairs(root: seq<Node>, files: seq<Path>): seq<(string, seq<string>)> {
    seq(|files|, j requires 0 <= j < |files| => (Str(files[j]), YamlIncludes(root, files[j])))
  }

  /** The pairs of one more file are those of the files before it, then its own. */
  lemma IncludePairsStep(root: seq<Node>, files: seq<Path>, i: nat)
    requires i < |files|
    ensures IncludePairs(root, files[..i + 1]) ==
      IncludePairs(root, files[..i]) + [(Str(files[i]), YamlIncludes(root, files[i]))]
  {
    var a := IncludePairs(root, files[..i + 1]);
    var b := IncludePairs(root, files[..i]) + [(Str(files[i]), YamlIncludes(root, files[i]))];
    forall j | 0 <= j < i + 1 ensures a[j] == b[j] {
      assert files[..i + 1][j] == files[j];
      if j < i {
        assert files[..i][j] == files[j];
      }
    }
  }

  /**
   * `collect_includes(files)`: the path strings of the files with a non-empty
   * include list, each mapped to the list of the last such file.
   */
  method CollectIncludes(root: seq<Node>, files: seq<Path>) returns (incmap: map<string, seq<string>>)
    ensures incmap == Collect(IncludePairs(root, files))
  {
    incmap := map[];
    var i := 0;
    while i < |files|
      invariant 0 <= i <= |files|
      invariant incmap == Collect(IncludePairs(root, files[..i]))
    {
      var f := files[i];
      var incs := YamlIncludes(root, f);
      IncludePairsStep(root, files, i);
      CollectSnoc(IncludePairs(root, files[..i]), Str(f), incs);
      if incs != [] {
        incmap := incmap[Str(f) := incs];
      }
      i := i + 1;
    }
    assert files[..i] == files;
  }

  /** The include map has a key for each file with a non-empty include list, and no other. */
  lemma IncludeMapKeys(root: seq<Node>, files: seq<Path>)
    ensures forall k :: k in Collect(IncludePairs(root, files)) <==>
      exists j :: 0 <= j < |files| && Str(files[j]) == k && YamlIncludes(root, files[j]) != []
  {
    var pairs := IncludePairs(root, files);
    CollectKeys(pairs);
    forall k ensures k in Collect(pairs) <==>
      exists j :: 0 <= j < |files| && Str(files[j]) == k && YamlIncludes(root, files[j]) != []
    {
      if k in Collect(pairs) {
        var j :| 0 <= j < |pairs| && pairs[j].0 == k && pairs[j].1 != [];
        assert pairs[j] == (Str(files[j]), YamlIncludes(root, files[j]));
      }
      if exists j :: 0 <= j < |files| && Str(files[j]) == k && YamlIncludes(root, files[j]) != [] {
        var j :| 0 <= j < |files| && Str(files[j]) == k && YamlIncludes(root, files[j]) != [];
        assert pairs[j] == (Str(files[j]), YamlIncludes(root, files[j]));
      }
    }
  }

  /** A file's path string holds its include list when no later file with that path string has includes. */
  lemma IncludeMapLastWins(root: seq<Node>, files: seq<Path>, i: nat)
    requires i < |files| && YamlIncludes(root, files[i]) != []
    requires forall j :: i < j < |files| && Str(files[j]) == Str(files[i]) ==> YamlIncludes(root, files[j]) == []
    ensures Str(files[i]) in Collect(IncludePairs(root, files))
    ensures Collect(IncludePairs(root, files))[Str(files[i])] == YamlIncludes(root, files[i])
  {
    var pairs := IncludePairs(root, files);
    assert pairs[i] == (Str(files[i]), YamlIncludes(root, files[i]));
    assert LastNonEmpty(pairs, i) by {
      forall j | i < j < |pairs| && pairs[j].0 == pairs[i].0 ensures pairs[j].1 == [] {
        assert pairs[j] == (Str(files[j]), YamlIncludes(root, files[j]));
      }
    }
    CollectLastWins(pairs, i);
  }

  /**
   * Every value of the include map is the include list of a file with that
   * path string, so it is non-empty, sorted and free of duplicates.
   */
  lemma IncludeMapValues(root: seq<Node>, files: seq<Path>)
    ensures forall k :: k in Collect(IncludePairs(root, files)) ==>
      exists j :: 0 <= j < |files| && Str(files[j]) == k && Collect(IncludePairs(root, files))[k] == YamlIncludes(root, files[j])
    ensures forall k :: k in Collect(IncludePairs(root, files)) ==>
      Collect(IncludePairs(root, files))[k] != [] && StrictlySorted(Collect(IncludePairs(root, files))[k])
  {
    var pairs := IncludePairs(root, files);
    CollectFromPairs(pairs);
    forall k | k in Collect(pairs)
      ensures exists j :: 0 <= j < |files| && Str(files[j]) == k && Collect(pairs)[k] == YamlIncludes(root, files[j])
      ensures Collect(pairs)[k] != [] && StrictlySorted(Collect(pairs)[k])
    {
      var j :| 0 <= j < |pairs| && pairs[j] == (k, Collect(pairs)[k]) && pairs[j].1 != [];
      assert pairs[j] == (Str(files[j]), YamlIncludes(root, files[j]));
    }
  }

  /** `make_relations(incmap)`: the same keys, each list replaced by its sorted distinct elements. */
  function MakeRelations(m: map<string, seq<string>>): (r: map<string, seq<string>>)
    ensures r.Keys == m.Keys
    ensures forall k :: k in r ==> StrictlySorted(r[k]) && forall y :: y in r[k] <==> y in m[k]
  {
    map k | k in m :: SortedSet(m[k])
  }

  /** A map whose lists are already sorted and distinct is its own `make_relations`. */
  lemma MakeRelationsOfNormalised(m: map<string, seq<string>>)
    requires forall k :: k in m ==> StrictlySorted(m[k])
    ensures MakeRelations(m) == m
  {
    forall k | k in m ensures MakeRelations(m)[k] == m[k] {
      SortedSetOfStrictlySorted(m[k]);
    }
  }

  /** `make_relations` is idempotent. */
  lemma MakeRelationsIdempotent(m: map<string, seq<string>>)
    ensures MakeRelations(MakeRelations(m)) == MakeRelations(m)
  {
    MakeRelationsOfNormalised(MakeRelations(m));
  }

  /** The element of `files` for path `f`. */
  function FileRecord(root: seq<Node>, f: Path): (r: FileEntry)
    ensures r.path == Str(f)
    ensures r.kind == DirectoryType <==> IsDirAt(root, f)
    ensures r.description.Some? <==> Describe(f) != ""
    ensures r.description.Some? ==> r.description.value == Describe(f)
  {
    FileEntry(Str(f), if IsDirAt(root, f) then DirectoryType else FileType, Described(Describe(f)))
  }

  /** The `files` list: one record per path, in the order of the paths. */
  function FileRecords(root: seq<Node>, files: seq<Path>): seq<FileEntry> {
    seq(|files|, i requires 0 <= i < |files| => FileRecord(root, files[i]))
  }

  /** Records of paths sorted by their strings are sorted by `path`. */
  lemma RecordsSorted(root: seq<Node>, files: seq<Path>)
    requires SortedByStr(files)
    ensures forall i :: 0 < i < |files| ==> LexLe(FileRecords(root, files)[i - 1].path, FileRecords(root, files)[i].path)
  {
  }

  /** The records of the listed paths are exactly the records of the listed files. */
  lemma RecordsListed(root: seq<Node>, files: seq<Path>)
    requires forall p :: p in files <==> Listed(root, p)
    ensures forall x :: x in FileRecords(root, files) ==> exists p :: Listed(root, p) && x == FileRecord(root, p)
    ensures forall p :: Listed(root, p) ==> FileRecord(root, p) in FileRecords(root, files)
  {
    var records := FileRecords(root, files);
    forall x | x in records ensures exists p :: Listed(root, p) && x == FileRecord(root, p) {
      var i :| 0 <= i < |records| && records[i] == x;
      assert files[i] in files;
    }
    forall p | Listed(root, p) ensures FileRecord(root, p) in records {
      var i :| 0 <= i < |files| && files[i] == p;
      assert records[i] == FileRecord(root, p);
    }
  }

  /** An element found at two indices is counted at least twice. */
  lemma OccursTwice<T>(s: seq<T>, i: nat, j: nat)
    requires i < j < |s| && s[i] == s[j]
    ensures multiset(s)[s[i]] >= 2
  {
    assert s == s[..j] + [s[j]] + s[j + 1..];
    assert s[i] in s[..j];
  }

  /** In a well-formed tree the walk's paths give records with pairwise different `path` fields. */
  lemma RecordsDistinct(root: seq<Node>, files: seq<Path>)
    requires WellFormed(root) && multiset(files) == multiset(KeptFiles(root))
    requires forall p :: p in files ==> Listed(root, p)
    ensures forall i, j :: 0 <= i < j < |files| ==> FileRecords(root, files)[i].path != FileRecords(root, files)[j].path
  {
    var records := FileRecords(root, files);
    forall i, j | 0 <= i < j < |files| ensures records[i].path != records[j].path {
      if records[i].path == records[j].path {
        assert files[i] in files && files[j] in files;
        ListedStrInjective(root, files[i], files[j]);
        ListedExactlyOnce(root, files[i]);
        OccursTwice(files, i, j);
        assert false;
      }
    }
  }

  /** In a real tree every listed path is a file, so every record has the file type. */
  lemma RecordsAreFiles(root: seq<Node>, files: seq<Path>)
    requires WellFormed(root) && forall p :: p in files ==> Listed(root, p)
    ensures forall x :: x in FileRecords(root, files) ==> x.kind == FileType
  {
    var records := FileRecords(root, files);
    forall x | x in records ensures x.kind == FileType {
      var i :| 0 <= i < |records| && records[i] == x;
      assert files[i] in files;
      ListedIsFile(root, files[i]);
    }
  }

  /** Every entry of the include map built from listed files is the include list of a listed file, under its path string. */
  lemma IncludeKeysListed(root: seq<Node>, files: seq<Path>)
    requires forall p :: p in files ==> Listed(root, p)
    ensures forall k :: k in Collect(IncludePairs(root, files)) ==>
      exists p :: Listed(root, p) && Str(p) == k && Collect(IncludePairs(root, files))[k] == YamlIncludes(root, p)
  {
    IncludeMapValues(root, files);
    forall k | k in Collect(IncludePairs(root, files))
      ensures exists p :: Listed(root, p) && Str(p) == k && Collect(IncludePairs(root, files))[k] == YamlIncludes(root, p)
    {
      var j :| 0 <= j < |files| && Str(files[j]) == k && Collect(IncludePairs(root, files))[k] == YamlIncludes(root, files[j]);
      assert files[j] in files;
    }
  }

  /** Every listed file with a non-empty include list has a key in the include map built from the listing. */
  lemma IncludeKeysComplete(root: seq<Node>, files: seq<Path>)
    requires forall p :: Listed(root, p) ==> p in files
    ensures forall p :: Listed(root, p) && YamlIncludes(root, p) != [] ==> Str(p) in Collect(IncludePairs(root, files))
  {
    IncludeMapKeys(root, files);
    forall p | Listed(root, p) && YamlIncludes(root, p) != [] ensures Str(p) in Collect(IncludePairs(root, files)) {
      var j :| 0 <= j < |files| && files[j] == p;
    }
  }

  /** In a well-formed tree, the key of a listed file holds that file's own include list. */
  lemma IncludeValuesExact(root: seq<Node>, files: seq<Path>)
    requires WellFormed(root) && forall p :: p in files <==> Listed(root, p)
    ensures forall p :: Listed(root, p) && YamlIncludes(root, p) != [] ==>
      Str(p) in Collect(IncludePairs(root, files)) && Collect(IncludePairs(root, files))[Str(p)] == YamlIncludes(root, p)
  {
    var m := Collect(IncludePairs(root, files));
    IncludeKeysComplete(root, files);
    IncludeKeysListed(root, files);
    forall p | Listed(root, p) && YamlIncludes(root, p) != [] ensures Str(p) in m && m[Str(p)] == YamlIncludes(root, p) {
      var q :| Listed(root, q) && Str(q) == Str(p) && m[Str(p)] == YamlIncludes(root, q);
      ListedStrInjective(root, p, q);
    }
  }

  /** The `root` object: a key for each top-level entry that is not an excluded directory name, holding that entry's value. */
  ghost predicate RootSection(root: seq<Node>, m: map<string, Info>) {
    (forall n :: n in m <==> exists e :: e in root && !IsSkipDir(e.name) && e.name == n) &&
    (forall n :: n in m ==> exists e :: e in root && !IsSkipDir(e.name) && e.name == n && m[n] == RootInfo(e))
  }

  /**
   * The `files` list: sorted by path string, the record (path string, type and
   * description) of each listed file and of nothing else, and, in a real tree,
   * each path once and only records of the file type.
   */
  ghost predicate FilesSection(root: seq<Node>, records: seq<FileEntry>) {
    (forall i :: 0 < i < |records| ==> LexLe(records[i - 1].path, records[i].path)) &&
    (forall x :: x in records ==> exists p :: Listed(root, p) && x == FileRecord(root, p)) &&
    (forall p :: Listed(root, p) ==> FileRecord(root, p) in records) &&
    (WellFormed(root) ==>
      (forall x :: x in records ==> x.kind == FileType) &&
      (forall i, j :: 0 <= i < j < |records| ==> records[i].path != records[j].path))
  }

  /**
   * The `yaml_includes` object: each key is the path string of a listed file
   * and holds that file's include list, which is non-empty, sorted and free of
   * duplicates; every listed file with includes has its key, holding, in a real
   * tree, its own list.
   */
  ghost predicate IncludesSection(root: seq<Node>, m: map<string, seq<string>>) {
    (forall k :: k in m ==>
      (exists p :: Listed(root, p) && Str(p) == k && m[k] == YamlIncludes(root, p)) &&
      m[k] != [] && StrictlySorted(m[k])) &&
    (forall p :: Listed(root, p) && YamlIncludes(root, p) != [] ==> Str(p) in m) &&
    (WellFormed(root) ==>
      forall p :: Listed(root, p) && YamlIncludes(root, p) != [] ==> Str(p) in m && m[Str(p)] == YamlIncludes(root, p))
  }

  /** What `main` promises of the document it writes. */
  ghost predicate SnapshotSpec(root: seq<Node>, generated: string, s: Snapshot) {
    s.projectName == ProjectName && s.repository == "" && s.generated == generated &&
    s.usageRules == Rules &&
    RootSection(root, s.root) &&
    FilesSection(root, s.files) &&
    IncludesSection(root, s.yamlIncludes) &&
    s.relations == s.yamlIncludes
  }

  lemma RootSectionOfTopLevel(root: seq<Node>)
    ensures RootSection(root, RootMap(TopLevel(root)))
  {
    RootMapKeys(TopLevel(root));
    RootMapFromEntries(TopLevel(root));
  }

  lemma FilesSectionOfListing(root: seq<Node>, files: seq<Path>)
    requires SortedByStr(files) && multiset(files) == multiset(KeptFiles(root))
    requires forall p :: p in files <==> Listed(root, p)
    ensures FilesSection(root, FileRecords(root, files))
  {
    RecordsSorted(root, files);
    RecordsListed(root, files);
    if WellFormed(root) {
      RecordsAreFiles(root, files);
      RecordsDistinct(root, files);
    }
  }

  lemma IncludesSectionOfListing(root: seq<Node>, files: seq<Path>)
    requires forall p :: p in files <==> Listed(root, p)
    ensures IncludesSection(root, Collect(IncludePairs(root, files)))
  {
    IncludeKeysListed(root, files);
    IncludeMapValues(root, files);
    IncludeKeysComplete(root, files);
    if WellFormed(root) {
      IncludeValuesExact(root, files);
    }
  }

  /**
   * `main`, less the clock and the output file: the snapshot of the tree
   * `root`, stamped with `generated`.
   */
  method GenerateSnapshot(root: seq<Node>, generated: string) returns (s: Snapshot)
    ensures SnapshotSpec(root, generated, s)
  {
    var files := ListAll(root);
    var incmap := CollectIncludes(root, files);
    var rootMap := BuildRootMap(TopLevel(root));
    RootSectionOfTopLevel(root);
    FilesSectionOfListing(root, files);
    IncludesSectionOfListing(root, files);
    IncludeMapValues(root, files);
    MakeRelationsOfNormalised(incmap);
    s := Snapshot(ProjectName, "", generated, rootMap, FileRecords(root, files), incmap, MakeRelations(incmap), Rules);
  }

  /** `describe` calls a `.yml` file YAML when no key occurs in its path, yet its includes are never read. */
  lemma YmlDescribedButNotScanned(root: seq<Node>, p: Path)
    requires Suffix(Name(p)) == ".yml"
    requires forall j :: 0 <= j < |Descr| ==> !Contains(Str(p), Descr[j].0)
    ensures Describe(p) == YamlText
    ensures YamlIncludes(root, p) == []
  {
    DescribeYml(p);
    YmlIsNotScanned(root, p);
  }


  // The documented scenarios, derived from what `main` promises. As in the
  // other examples, names and texts are parameters pinned by `requires` where
  // that keeps the solver from reasoning character by character.

  /** A root holding one file: the only path listed is its name, unless the name is excluded. */
  lemma SingleFileListed(n: string, c: Option<string>, p: Path)
    ensures Listed([File(n, c)], p) <==> p == [n] && !IsSkipFile(n)
  {
    if p == [n] && !IsSkipFile(n) {
      assert FileUnder([File(n, c)][0], p);
    }
    if Listed([File(n, c)], p) {
      var i :| 0 <= i < 1 && FileUnder([File(n, c)][i], p);
      assert |p| == 1 && p[0] == n;
      assert p == [p[0]];
    }
  }

  /** Nothing below a directory with an excluded name, at any depth and in any tree, is listed. */
  lemma ExcludedDirListsNothing(root: seq<Node>, p: Path, k: int)
    requires 0 <= k < |p| - 1 && IsSkipDir(p[k])
    ensures !Listed(root, p)
  {
  }

  /** A file below a root holding one directory lies inside that directory. */
  lemma SingleDirPath(d: string, cs: seq<Node>, p: Path)
    requires FileAt([Dir(d, cs)], p)
    ensures |p| > 1 && p[0] == d
  {
    var i :| 0 <= i < 1 && FileUnder([Dir(d, cs)][i], p);
  }

  /** A file at the top of the tree is listed under its name, unless the name is excluded. */
  lemma TopFileListed(root: seq<Node>, n: string, c: Option<string>)
    requires File(n, c) in root && !IsSkipFile(n)
    ensures Listed(root, [n])
  {
    var i :| 0 <= i < |root| && root[i] == File(n, c);
    assert FileUnder(root[i], [n]);
  }

  /** In a real tree, reading a file at the top of the tree gives its text. */
  lemma TopFileRead(root: seq<Node>, n: string, c: Option<string>)
    requires WellFormed(root) && File(n, c) in root
    ensures ReadText(root, [n]) == c
  {
    var i :| 0 <= i < |root| && root[i] == File(n, c);
    ChildIsUnique(root, i);
  }

  /** One file whose name holds no `/`: a real tree. */
  lemma SingleFileWellFormed(n: string, c: Option<string>)
    requires '/' !in n
    ensures WellFormed([File(n, c)])
  {
  }

  /** What a one-file root gives for that file: listed, a real tree, and its record. */
  lemma SingleFileRecord(n: string, c: Option<string>)
    requires '/' !in n && !IsSkipFile(n)
    ensures Listed([File(n, c)], [n]) && WellFormed([File(n, c)])
    ensures FileRecord([File(n, c)], [n]) == FileEntry(n, FileType, Described(Describe([n])))
    ensures ReadText([File(n, c)], [n]) == c
  {
    SingleFileListed(n, c, [n]);
    SingleFileWellFormed(n, c);
  }

  lemma ConfigurationName(n: string)
    requires n == "configuration.yaml"
    ensures '/' !in n && !IsSkipFile(n)
  {
    SkipFileMeaning(n);
    assert n[|n| - 4] == 'y';
  }

  lemma ConfigurationSuffix(n: string)
    requires n == "configuration.yaml"
    ensures EndsWithLower(Suffix(Name([n])), "yaml")
  {
    SuffixOfDotted("configuration", "yaml");
    assert "configuration" + "." + "yaml" == n;
    assert Suffix(Name([n])) == ".yaml";
    DotYamlIsScanned();
  }

  /** The suffix `.yaml` passes the test of `yaml_includes`. */
  lemma DotYamlIsScanned()
    ensures EndsWithLower(".yaml", "yaml")
  {
  }

  lemma ConfigurationIncludes(n: string, text: string)
    requires n == "configuration.yaml" && text == "sensor: !include includes/sensors.yaml"
    ensures YamlIncludes([File(n, Some(text))], [n]) == ["includes/sensors.yaml"]
  {
    ConfigurationSuffix(n);
    YamlIncludesOfReadable([File(n, Some(text))], [n], text);
    SensorLineTargets("sensor: ", "includes/sensors.yaml");
    SensorLineParts(text);
  }

  /** The line of the scenario, as prefix, directive and target. */
  lemma SensorLineParts(text: string)
    requires text == "sensor: !include includes/sensors.yaml"
    ensures text == "sensor: " + "!include " + "includes/sensors.yaml"
  {
  }

  /** `a.yaml`: kept by the walk, described as YAML, and scanned for includes. */
  lemma YamlName(n: string)
    requires n == "a.yaml"
    ensures '/' !in n && !IsSkipFile(n)
    ensures Describe([n]) == YamlText
    ensures EndsWithLower(Suffix(Name([n])), "yaml")
  {
    YamlNameKept(n);
    YamlNameSuffix(n);
    DescribeShortName(n);
  }

  lemma YamlNameSuffix(n: string)
    requires n == "a.yaml"
    ensures Suffix(n) == ".yaml" && EndsWithLower(Suffix(Name([n])), "yaml")
  {
    SuffixOfDotted("a", "yaml");
    assert "a" + "." + "yaml" == n;
    assert Suffix(Name([n])) == ".yaml";
    DotYamlIsScanned();
  }

  lemma YamlNameKept(n: string)
    requires n == "a.yaml"
    ensures '/' !in n && !IsSkipFile(n)
  {
    SkipFileMeaning(n);
    assert n[|n| - 4] == 'y';
  }

  lemma NotesName(n: string)
    requires n == "notes.txt"
    ensures '/' !in n && !IsSkipFile(n)
  {
    SkipFileMeaning(n);
    assert n[|n| - 3] == 't';
  }

  /**
   * `configuration.yaml` at the root holding `sensor: !include includes/sensors.yaml`:
   * its key in `yaml_includes` holds exactly that target, and its record in
   * `files` carries the main-configuration description.
   */
  lemma ConfigurationScenario(generated: string, s: Snapshot)
    requires SnapshotSpec([File("configuration.yaml", Some("sensor: !include includes/sensors.yaml"))], generated, s)
    ensures "configuration.yaml" in s.yamlIncludes && s.yamlIncludes["configuration.yaml"] == ["includes/sensors.yaml"]
    ensures FileEntry("configuration.yaml", FileType, Some(ConfigurationText)) in s.files
  {
    var n := "configuration.yaml";
    var root := [File(n, Some("sensor: !include includes/sensors.yaml"))];
    ConfigurationName(n);
    ConfigurationIncludes(n, "sensor: !include includes/sensors.yaml");
    SingleFileRecord(n, Some("sensor: !include includes/sensors.yaml"));
    DescribeMainConfiguration();
    assert Str([n]) == n;
    assert Listed(root, [n]) && YamlIncludes(root, [n]) != [];
  }

  /** In any real tree, a top-level `notes.txt`, matched by no key and of no known suffix, is in `files` without a description. */
  lemma NotesScenario(root: seq<Node>, c: Option<string>, generated: string, s: Snapshot)
    requires WellFormed(root) && File("notes.txt", c) in root && SnapshotSpec(root, generated, s)
    ensures FileEntry("notes.txt", FileType, None) in s.files
  {
    NotesName("notes.txt");
    TopFileListed(root, "notes.txt", c);
    DescribeUnknownFile();
    assert Str(["notes.txt"]) == "notes.txt";
    assert FileRecord(root, ["notes.txt"]) in s.files;
  }

  /** An unreadable YAML file is in `files`, yet gives no key in `yaml_includes`. */
  lemma UnreadableYamlScenario(generated: string, s: Snapshot)
    requires SnapshotSpec([File("a.yaml", None)], generated, s)
    ensures FileEntry("a.yaml", FileType, Some(YamlText)) in s.files
    ensures s.yamlIncludes == map[] && s.relations == map[]
  {
    var root := [File("a.yaml", None)];
    YamlName("a.yaml");
    SingleFileRecord("a.yaml", None);
    assert Listed(root, ["a.yaml"]);
    forall k | k in s.yamlIncludes ensures false {
      var p :| Listed(root, p) && Str(p) == k && s.yamlIncludes[k] == YamlIncludes(root, p);
      SingleFileListed("a.yaml", None, p);
    }
    assert s.yamlIncludes.Keys == {};
  }

  /** In any real tree, a listed file that cannot be read has no key in `yaml_includes` or `relations`. */
  lemma UnreadableFileHasNoKey(root: seq<Node>, p: Path, generated: string, s: Snapshot)
    requires WellFormed(root) && Listed(root, p) && ReadText(root, p) == None
    requires SnapshotSpec(root, generated, s)
    ensures Str(p) !in s.yamlIncludes && Str(p) !in s.relations
  {
    if Str(p) in s.yamlIncludes {
      var q :| Listed(root, q) && Str(q) == Str(p) && s.yamlIncludes[Str(p)] == YamlIncludes(root, q);
      ListedStrInjective(root, p, q);
      assert false;
    }
  }

  /** In any real tree, two identical include lines in a top-level `a.yaml` give a one-element list under its key. */
  lemma RepeatedIncludeScenario(root: seq<Node>, line: string, generated: string, s: Snapshot)
    requires line == "a: " + "!include " + "x.yaml" + "\n"
    requires WellFormed(root) && File("a.yaml", Some(line + line)) in root && SnapshotSpec(root, generated, s)
    ensures "a.yaml" in s.yamlIncludes && s.yamlIncludes["a.yaml"] == ["x.yaml"]
  {
    YamlName("a.yaml");
    TopFileListed(root, "a.yaml", Some(line + line));
    TopFileRead(root, "a.yaml", Some(line + line));
    RepeatedDirectiveExample(line);
    YamlIncludesOfReadable(root, ["a.yaml"], line + line);
    assert Str(["a.yaml"]) == "a.yaml";
    assert Listed(root, ["a.yaml"]) && YamlIncludes(root, ["a.yaml"]) != [];
  }

  /** A top-level `.git` directory, whatever it holds, gives nothing in `root`, `files`, `yaml_includes` or `relations`. */
  lemma ExcludedDirScenario(cs: seq<Node>, generated: string, s: Snapshot)
    requires SnapshotSpec([Dir(".git", cs)], generated, s)
    ensures s.root == map[]
    ensures s.files == []
    ensures s.yamlIncludes == map[]
    ensures s.relations == map[]
  {
    var root := [Dir(".git", cs)];
    assert IsSkipDir(".git");
    assert s.root.Keys == {};
    if s.files != [] {
      RecordsNameListed(root, s.files);
      var p :| Listed(root, p);
      SingleDirPath(".git", cs, p);
      assert false;
    }
    assert s.yamlIncludes.Keys == {};
  }

  /** In a real tree, no listed file's path string starts with `d/` for an excluded, `/`-free `d`. */
  lemma ListedNotBelow(root: seq<Node>, d: string, p: Path)
    requires WellFormed(root) && Listed(root, p) && IsSkipDir(d) && '/' !in d
    ensures !Below(d, Str(p))
  {
    if Below(d, Str(p)) {
      FileAtSlashFree(root, p);
      StrBelow(p, d);
      ExcludedDirListsNothing(root, p, 0);
      assert false;
    }
  }

  /**
   * In any real tree, a top-level directory with an excluded name, whatever it
   * holds, leaves no trace: no key in `root`, and no record in `files` and no
   * key in `yaml_includes` or `relations` whose path lies inside it.
   */
  lemma ExcludedDirLeavesNoTrace(root: seq<Node>, d: string, cs: seq<Node>, generated: string, s: Snapshot)
    requires WellFormed(root) && Dir(d, cs) in root && IsSkipDir(d) && SnapshotSpec(root, generated, s)
    ensures d !in s.root
    ensures forall x :: x in s.files ==> !Below(d, x.path)
    ensures forall k :: k in s.yamlIncludes ==> !Below(d, k)
    ensures forall k :: k in s.relations ==> !Below(d, k)
  {
    var i :| 0 <= i < |root| && root[i] == Dir(d, cs);
    assert '/' !in root[i].name;
    forall x | x in s.files ensures !Below(d, x.path) {
      var p :| Listed(root, p) && x == FileRecord(root, p);
      ListedNotBelow(root, d, p);
    }
    forall k | k in s.yamlIncludes ensures !Below(d, k) {
      var p :| Listed(root, p) && Str(p) == k && s.yamlIncludes[k] == YamlIncludes(root, p);
      ListedNotBelow(root, d, p);
    }
  }

  /**
   * In any real tree, a file whose name ends with an excluded suffix, at any
   * depth, leaves no record in `files` and no key in `yaml_includes` or
   * `relations`.
   */
  lemma ExcludedSuffixLeavesNoTrace(root: seq<Node>, p: Path, generated: string, s: Snapshot)
    requires WellFormed(root) && FileAt(root, p) && IsSkipFile(Name(p)) && SnapshotSpec(root, generated, s)
    ensures forall x :: x in s.files ==> x.path != Str(p)
    ensures Str(p) !in s.yamlIncludes && Str(p) !in s.relations
  {
    forall x | x in s.files ensures x.path != Str(p) {
      var q :| Listed(root, q) && x == FileRecord(root, q);
      ExcludedSuffixNotListedStr(root, p, q);
    }
  }

  /** In a real tree, no listed file shares its path string with a file of excluded suffix. */
  lemma ExcludedSuffixNotListedStr(root: seq<Node>, p: Path, q: Path)
    requires WellFormed(root) && FileAt(root, p) && IsSkipFile(Name(p)) && Listed(root, q)
    ensures Str(q) != Str(p)
  {
    FileAtSlashFree(root, p);
    FileAtSlashFree(root, q);
    if Str(q) == Str(p) {
      StrInjective(p, q);
      assert false;
    }
  }

  /**
   * Where `top_level` departs from the exclusion rules: a top-level file with
   * an excluded suffix whose name is no excluded directory name keeps its key
   * in `root`, although it has no record in `files`.
   */
  lemma TopLevelSkipFileStaysInRoot(root: seq<Node>, n: string, c: Option<string>, generated: string, s: Snapshot)
    requires WellFormed(root) && File(n, c) in root && IsSkipFile(n) && !IsSkipDir(n)
    requires SnapshotSpec(root, generated, s)
    ensures n in s.root && s.root[n] == RootInfo(File(n, c))
    ensures forall x :: x in s.files ==> x.path != n
  {
    var i :| 0 <= i < |root| && root[i] == File(n, c);
    assert FileUnder(root[i], [n]);
    ExcludedSuffixLeavesNoTrace(root, [n], generated, s);
    assert Str([n]) == n;
    SameNameSameEntry(root, File(n, c), s.root);
  }

  /**
   * The converse departure: a top-level file whose name is an excluded
   * directory name (a `.git` file, say) has no key in `root`, yet the walk
   * lists it and `files` holds its record.
   */
  lemma TopLevelSkipDirNamedFile(root: seq<Node>, n: string, c: Option<string>, generated: string, s: Snapshot)
    requires WellFormed(root) && File(n, c) in root && IsSkipDir(n) && !IsSkipFile(n)
    requires SnapshotSpec(root, generated, s)
    ensures n !in s.root
    ensures FileEntry(n, FileType, Described(Describe([n]))) in s.files
  {
    TopFileListed(root, n, c);
    ListedIsFile(root, [n]);
    assert Str([n]) == n;
    assert FileRecord(root, [n]) in s.files;
  }

  /** With unique names, a root-map key holds the value of the one entry of that name. */
  lemma SameNameSameEntry(root: seq<Node>, e: Node, m: map<string, Info>)
    requires UniqueNames(root) && e in root && RootSection(root, m) && e.name in m
    ensures m[e.name] == RootInfo(e)
  {
    var e' :| e' in root && !IsSkipDir(e'.name) && e'.name == e.name && m[e.name] == RootInfo(e');
    SameNameInRoot(root, e, e');
  }

  /** With unique names, two entries of the root with the same name are the same entry. */
  lemma SameNameInRoot(root: seq<Node>, e: Node, e': Node)
    requires UniqueNames(root) && e in root && e' in root && e.name == e'.name
    ensures e == e'
  {
    var i :| 0 <= i < |root| && root[i] == e;
    var j :| 0 <= j < |root| && root[j] == e';
  }

  /**
   * The document is determined by the tree and the time stamp: two documents
   * that both meet `SnapshotSpec` for a real tree are equal. Running `main`
   * twice on an unchanged tree gives the same document apart from `generated`.
   */
  lemma SnapshotDetermined(root: seq<Node>, generated: string, s1: Snapshot, s2: Snapshot)
    requires WellFormed(root) && SnapshotSpec(root, generated, s1) && SnapshotSpec(root, generated, s2)
    ensures s1 == s2
  {
    RootSectionDetermined(root, s1.root, s2.root);
    FilesSectionDetermined(root, s1.files, s2.files);
    IncludesSectionDetermined(root, s1.yamlIncludes, s2.yamlIncludes);
  }

  /** In a real tree, `RootSection` fixes the root map. */
  lemma RootSectionDetermined(root: seq<Node>, m1: map<string, Info>, m2: map<string, Info>)
    requires WellFormed(root) && RootSection(root, m1) && RootSection(root, m2)
    ensures m1 == m2
  {
    RootKeysInOther(root, m1, m2);
    RootKeysInOther(root, m2, m1);
    MapsAgree(m1, m2);
  }

  /** In a real tree, every key of one root map that meets `RootSection` is a key of every other, with the same value. */
  lemma RootKeysInOther(root: seq<Node>, m1: map<string, Info>, m2: map<string, Info>)
    requires WellFormed(root) && RootSection(root, m1) && RootSection(root, m2)
    ensures forall n :: n in m1 ==> n in m2 && m2[n] == m1[n]
  {
    forall n | n in m1 ensures n in m2 && m2[n] == m1[n] {
      var e :| e in root && !IsSkipDir(e.name) && e.name == n && m1[n] == RootInfo(e);
      SameNameSameEntry(root, e, m2);
    }
  }

  /** In a real tree, `IncludesSection` fixes the include map. */
  lemma IncludesSectionDetermined(root: seq<Node>, m1: map<string, seq<string>>, m2: map<string, seq<string>>)
    requires WellFormed(root) && IncludesSection(root, m1) && IncludesSection(root, m2)
    ensures m1 == m2
  {
    IncludeKeysInOther(root, m1, m2);
    IncludeKeysInOther(root, m2, m1);
    MapsAgree(m1, m2);
  }

  /** In a real tree, every key of one include map that meets `IncludesSection` is a key of every other, with the same list. */
  lemma IncludeKeysInOther(root: seq<Node>, m1: map<string, seq<string>>, m2: map<string, seq<string>>)
    requires WellFormed(root) && IncludesSection(root, m1) && IncludesSection(root, m2)
    ensures forall k :: k in m1 ==> k in m2 && m2[k] == m1[k]
  {
    forall k | k in m1 ensures k in m2 && m2[k] == m1[k] {
      IncludeKeyInOther(root, m1, m2, k);
    }
  }

  /** Two maps that hold each other's keys with the same values are equal. */
  lemma MapsAgree<K, V>(m1: map<K, V>, m2: map<K, V>)
    requires forall k :: k in m1 ==> k in m2 && m2[k] == m1[k]
    requires forall k :: k in m2 ==> k in m1
    ensures m1 == m2
  {
    assert m1.Keys == m2.Keys;
  }

  /** In a real tree, a key of one include map that meets `IncludesSection` is a key of every other, with the same list. */
  lemma IncludeKeyInOther(root: seq<Node>, m1: map<string, seq<string>>, m2: map<string, seq<string>>, k: string)
    requires WellFormed(root) && IncludesSection(root, m1) && IncludesSection(root, m2) && k in m1
    ensures k in m2 && m2[k] == m1[k]
  {
    var p :| Listed(root, p) && Str(p) == k && m1[k] == YamlIncludes(root, p);
    assert m1[k] != [];
  }

  /** The `path` fields of a list of records, in order. */
  function Paths(records: seq<FileEntry>): (r: seq<string>)
    ensures |r| == |records|
  {
    seq(|records|, i requires 0 <= i < |records| => records[i].path)
  }

  /** In a real tree, the paths of a `files` list that meets `FilesSection` are strictly ascending. */
  lemma FilesSectionPathsSorted(root: seq<Node>, records: seq<FileEntry>)
    requires WellFormed(root) && FilesSection(root, records)
    ensures StrictlySorted(Paths(records))
  {
    forall i | 0 < i < |records| ensures LexLt(Paths(records)[i - 1], Paths(records)[i]) {
      assert records[i - 1].path != records[i].path;
    }
  }

  /** In a real tree, `FilesSection` fixes the `files` list. */
  lemma FilesSectionDetermined(root: seq<Node>, r1: seq<FileEntry>, r2: seq<FileEntry>)
    requires WellFormed(root) && FilesSection(root, r1) && FilesSection(root, r2)
    ensures r1 == r2
  {
    FilesSectionPathsSorted(root, r1);
    FilesSectionPathsSorted(root, r2);
    forall y ensures y in Paths(r1) <==> y in Paths(r2) {
      if y in Paths(r1) {
        PathInOther(root, r1, r2, y);
      }
      if y in Paths(r2) {
        PathInOther(root, r2, r1, y);
      }
    }
    StrictlySortedUnique(Paths(r1), Paths(r2));
    forall i | 0 <= i < |r1| ensures r1[i] == r2[i] {
      assert r1[i] in r1 && r2[i] in r2;
      assert Paths(r1)[i] == Paths(r2)[i];
      var p :| Listed(root, p) && r1[i] == FileRecord(root, p);
      var q :| Listed(root, q) && r2[i] == FileRecord(root, q);
      ListedStrInjective(root, p, q);
    }
  }

  /** A path of one `files` list that meets `FilesSection` is a path of every other. */
  lemma PathInOther(root: seq<Node>, r1: seq<FileEntry>, r2: seq<FileEntry>, y: string)
    requires FilesSection(root, r1) && FilesSection(root, r2) && y in Paths(r1)
    ensures y in Paths(r2)
  {
    var i :| 0 <= i < |r1| && Paths(r1)[i] == y;
    assert r1[i] in r1;
    var p :| Listed(root, p) && r1[i] == FileRecord(root, p);
    var j :| 0 <= j < |r2| && r2[j] == FileRecord(root, p);
    assert Paths(r2)[j] == y;
  }

  /** A `files` list with a record names some listed file. */
  lemma RecordsNameListed(root: seq<Node>, records: seq<FileEntry>)
    requires FilesSection(root, records) && records != []
    ensures exists p :: Listed(root, p)
  {
    assert records[0] in records;
  }
}
